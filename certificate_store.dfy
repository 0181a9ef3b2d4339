/** The certificate table behind the two route files that list and create
    certificates (src/app/api/admin/certificates/route.ts and
    src/app/api/certificates/search/route.ts). Both run the same create
    pipeline (validate the six fields, look for a duplicate, insert an active
    record); they differ only in what counts as a duplicate. */
module CertificateStore {
  import opened Wrappers
  import opened Types

  /** What a create request collides with: the admin route looks up the
      `dni` alone, the search route the pair (`dni`, `course`). */
  datatype Policy = SameDni | SameDniAndCourse

  const MsgRequired: string := "Todos los campos son requeridos"
  const MsgDuplicateDni: string := "Ya existe un certificado con este DNI"
  const MsgDuplicateDniCourse: string := "Ya existe un certificado con este DNI y curso"
  const MsgCreated: string := "Certificado creado exitosamente"

  /** The response of a create request: 201 with the new record, or 400 with a message. */
  datatype PostResponse = Created(message: string, certificate: Certificate) | BadRequest(message: string)
  {
    function Status(): int {
      if Created? then 201 else 400
    }
  }

  function DuplicateMessage(p: Policy): string {
    match p
    case SameDni => MsgDuplicateDni
    case SameDniAndCourse => MsgDuplicateDniCourse
  }

  /** JavaScript truthiness of a string field: present and not empty. */
  predicate Truthy(f: Option<string>) {
    f.Some? && f.value != ""
  }

  /** All six required fields are truthy. */
  predicate Complete(form: CertificateForm) {
    && Truthy(form.dni)
    && Truthy(form.fullName)
    && Truthy(form.course)
    && Truthy(form.company)
    && Truthy(form.issueDate)
    && Truthy(form.expiryDate)
  }

  /** Whether the stored record `c` is a duplicate of (`dni`, `course`) under
      the policy. `isActive` is not consulted. */
  predicate Collides(p: Policy, c: Certificate, dni: string, course: string) {
    c.dni == dni && (p == SameDniAndCourse ==> c.course == course)
  }

  /** No two stored records collide under the policy. */
  ghost predicate Unique(p: Policy, rows: seq<Certificate>) {
    forall i, j :: 0 <= i < j < |rows| ==> !Collides(p, rows[j], rows[i].dni, rows[i].course)
  }

  /** The duplicate lookup: the index of the first stored record that
      collides with (`dni`, `course`), if there is one. */
  function FindDuplicate(p: Policy, rows: seq<Certificate>, dni: string, course: string): (r: Option<nat>)
    ensures r.Some? ==> r.value < |rows| && Collides(p, rows[r.value], dni, course)
    ensures r.Some? ==> forall i :: 0 <= i < r.value ==> !Collides(p, rows[i], dni, course)
    ensures r.None? <==> forall i :: 0 <= i < |rows| ==> !Collides(p, rows[i], dni, course)
  {
    if rows == [] then None
    else if Collides(p, rows[0], dni, course) then Some(0)
    else match FindDuplicate(p, rows[1..], dni, course)
      case None => None
      case Some(i) => Some(i + 1)
  }

  /** The record the store inserts for a complete form. */
  function NewRecord(form: CertificateForm, toDate: string -> int, id: nat, stamp: int): Certificate
    requires Complete(form)
  {
    Certificate(id, form.dni.value, form.fullName.value, form.course.value, form.company.value,
                toDate(form.issueDate.value), toDate(form.expiryDate.value),
                None, true, stamp, stamp)
  }

  /** `c` carries the six submitted values, has no PDF and is active. */
  predicate Carries(c: Certificate, form: CertificateForm, toDate: string -> int)
    requires Complete(form)
  {
    && c.dni == form.dni.value
    && c.fullName == form.fullName.value
    && c.course == form.course.value
    && c.company == form.company.value
    && c.issueDate == toDate(form.issueDate.value)
    && c.expiryDate == toDate(form.expiryDate.value)
    && c.pdfUrl == None
    && c.isActive
  }

  /** The response and the table after a create request. */
  datatype Outcome = Outcome(response: PostResponse, rows: seq<Certificate>)

  /** A create request against the table `rows`, as a value; `id` and
      `stamp` are what the store would assign next. */
  function Post(p: Policy, rows: seq<Certificate>, form: CertificateForm, toDate: string -> int,
                id: nat, stamp: int): (o: Outcome)
    // Validation comes first and does not look at the table.
    ensures !Complete(form) ==> o == Outcome(BadRequest(MsgRequired), rows)
    // A duplicate, active or not, is refused and the table is left as it was.
    ensures Complete(form) && (exists i :: 0 <= i < |rows| && Collides(p, rows[i], form.dni.value, form.course.value))
            ==> o == Outcome(BadRequest(DuplicateMessage(p)), rows)
    // Otherwise exactly one record is appended, and it is the one returned.
    ensures Complete(form) && (forall i :: 0 <= i < |rows| ==> !Collides(p, rows[i], form.dni.value, form.course.value))
            ==> && o.response.Created?
                && o.response.Status() == 201
                && o.response.message == MsgCreated
                && o.rows == rows + [o.response.certificate]
                && Carries(o.response.certificate, form, toDate)
                && o.response.certificate.id == id
                && o.response.certificate.createdAt == stamp
                && o.response.certificate.updatedAt == stamp
  {
    if !Complete(form) then Outcome(BadRequest(MsgRequired), rows)
    else match FindDuplicate(p, rows, form.dni.value, form.course.value)
      case Some(_) => Outcome(BadRequest(DuplicateMessage(p)), rows)
      case None =>
        var c := NewRecord(form, toDate, id, stamp);
        Outcome(Created(MsgCreated, c), rows + [c])
  }

  /** A create request keeps the policy's uniqueness invariant. */
  lemma PostPreservesUnique(p: Policy, rows: seq<Certificate>, form: CertificateForm, toDate: string -> int,
                            id: nat, stamp: int)
    requires Unique(p, rows)
    ensures Unique(p, Post(p, rows, form, toDate, id, stamp).rows)
  {
    var o := Post(p, rows, form, toDate, id, stamp);
    if o.response.Created? {
      var c := o.response.certificate;
      assert o.rows == rows + [c];
      assert forall i :: 0 <= i < |rows| ==> !Collides(p, rows[i], c.dni, c.course);
    }
  }

  /** Whatever the policy, a create request keeps the (`dni`, `course`)
      pairs unique: the admin route's stricter lookup refuses every request
      the search route refuses. */
  lemma PostKeepsPairsUnique(p: Policy, rows: seq<Certificate>, form: CertificateForm, toDate: string -> int,
                             id: nat, stamp: int)
    requires Unique(SameDniAndCourse, rows)
    ensures Unique(SameDniAndCourse, Post(p, rows, form, toDate, id, stamp).rows)
  {
    var o := Post(p, rows, form, toDate, id, stamp);
    if o.response.Created? {
      var c := o.response.certificate;
      assert o.rows == rows + [c];
      assert forall i :: 0 <= i < |rows| ==> !Collides(p, rows[i], c.dni, c.course);
      assert forall i :: 0 <= i < |rows| ==> !Collides(SameDniAndCourse, c, rows[i].dni, rows[i].course);
    }
  }

  /** A request either leaves the table as it was or appends one record
      after every record already stored. */
  lemma PostKeepsStoredRecords(p: Policy, rows: seq<Certificate>, form: CertificateForm, toDate: string -> int,
                               id: nat, stamp: int)
    ensures var o := Post(p, rows, form, toDate, id, stamp);
            && |rows| <= |o.rows| <= |rows| + 1
            && o.rows[..|rows|] == rows
            && (o.response.BadRequest? <==> o.rows == rows)
  {
    var o := Post(p, rows, form, toDate, id, stamp);
    if o.response.Created? {
      assert o.rows == rows + [o.response.certificate];
      assert o.rows[..|rows|] == rows;
    }
  }

  /** Uniqueness of `dni` implies uniqueness of (`dni`, `course`): requests
      through the admin route keep both invariants. */
  lemma UniqueDniImpliesUniquePair(rows: seq<Certificate>)
    requires Unique(SameDni, rows)
    ensures Unique(SameDniAndCourse, rows)
  {
  }

  /** Under the search route's policy a second course for the same `dni` is
      accepted, after which `dni` is no longer unique in the table. */
  lemma SecondCourseAccepted(rows: seq<Certificate>, form: CertificateForm, toDate: string -> int,
                             id: nat, stamp: int, k: nat)
    requires Complete(form)
    requires k < |rows| && rows[k].dni == form.dni.value
    requires forall i :: 0 <= i < |rows| && rows[i].dni == form.dni.value ==> rows[i].course != form.course.value
    ensures Post(SameDniAndCourse, rows, form, toDate, id, stamp).response.Created?
    ensures !Unique(SameDni, Post(SameDniAndCourse, rows, form, toDate, id, stamp).rows)
    ensures Post(SameDni, rows, form, toDate, id, stamp) == Outcome(BadRequest(MsgDuplicateDni), rows)
  {
    var o := Post(SameDniAndCourse, rows, form, toDate, id, stamp);
    assert forall i :: 0 <= i < |rows| ==> !Collides(SameDniAndCourse, rows[i], form.dni.value, form.course.value);
    assert o.rows[k] == rows[k] && o.rows[|rows|] == o.response.certificate;
    assert Collides(SameDni, rows[k], form.dni.value, form.course.value);
  }

  /** Creation stamps strictly increase along the table. */
  ghost predicate StampsIncreasing(rows: seq<Certificate>) {
    forall i, j :: 0 <= i < j < |rows| ==> rows[i].createdAt < rows[j].createdAt
  }

  /** The table in reverse insertion order. */
  function NewestFirst(rows: seq<Certificate>): (r: seq<Certificate>)
    ensures |r| == |rows|
    ensures forall k :: 0 <= k < |rows| ==> r[k] == rows[|rows| - 1 - k]
    ensures multiset(r) == multiset(rows)
  {
    if rows == [] then []
    else
      var last := |rows| - 1;
      assert rows == rows[..last] + [rows[last]];
      [rows[last]] + NewestFirst(rows[..last])
  }

  /** Stamps and ids increase along `rows` and stay below the next stamp
      and id, and no two records share both `dni` and `course`. */
  ghost predicate TableInvariant(rows: seq<Certificate>, clock: int, nextId: nat) {
    && StampsIncreasing(rows)
    && Unique(SameDniAndCourse, rows)
    && (forall i, j :: 0 <= i < j < |rows| ==> rows[i].id < rows[j].id)
    && (forall i :: 0 <= i < |rows| ==> rows[i].createdAt < clock && rows[i].id < nextId)
  }

  /** Appending a record stamped with the counters, and advancing them,
      keeps the invariant. */
  lemma InsertKeepsInvariant(rows: seq<Certificate>, clock: int, nextId: nat, c: Certificate)
    requires TableInvariant(rows, clock, nextId)
    requires c.createdAt == clock && c.id == nextId
    requires Unique(SameDniAndCourse, rows + [c])
    ensures TableInvariant(rows + [c], clock + 1, nextId + 1)
  {
  }

  /** The store's table. `clock` and `nextId` are the stamp and id the next
      insert receives. */
  class CertificateTable {
    var rows: seq<Certificate>
    var clock: int
    var nextId: nat

    /** Stamps and ids increase along the table and stay below the counters,
        and no two records share both `dni` and `course`, whichever route
        inserted them. */
    ghost predicate Valid()
      reads this
    {
      TableInvariant(rows, clock, nextId)
    }

    /** The empty table; the first insert gets id 0 and stamp 0. */
    constructor ()
      ensures Valid() && rows == []
      ensures clock == 0 && nextId == 0
    {
      rows, clock, nextId := [], 0, 0;
    }

    /** `GET`: every stored record, inactive ones included, newest
        `createdAt` first. */
    function List(): (r: seq<Certificate>)
      reads this
      requires Valid()
      ensures multiset(r) == multiset(rows)
      ensures forall c :: c in r <==> c in rows
      ensures forall i, j :: 0 <= i < j < |r| ==> r[i].createdAt > r[j].createdAt
    {
      var r := NewestFirst(rows);
      assert forall c :: c in r <==> c in multiset(r);
      r
    }

    /** The shared `POST` pipeline: validation, duplicate lookup, insert. */
    method Create(p: Policy, form: CertificateForm, toDate: string -> int) returns (resp: PostResponse)
      requires Valid()
      modifies this
      ensures Valid()
      ensures Outcome(resp, rows) == Post(p, old(rows), form, toDate, old(nextId), old(clock))
      ensures Unique(p, old(rows)) ==> Unique(p, rows)
      ensures resp.BadRequest? ==> rows == old(rows) && clock == old(clock) && nextId == old(nextId)
      ensures resp.Created? ==> clock == old(clock) + 1 && nextId == old(nextId) + 1
    {
      if !Complete(form) {
        return BadRequest(MsgRequired);
      }
      var existing := FindDuplicate(p, rows, form.dni.value, form.course.value);
      if existing.Some? {
        return BadRequest(DuplicateMessage(p));
      }
      var c := NewRecord(form, toDate, nextId, clock);
      if Unique(p, rows) {
        PostPreservesUnique(p, rows, form, toDate, nextId, clock);
      }
      PostKeepsPairsUnique(p, rows, form, toDate, nextId, clock);
      InsertKeepsInvariant(rows, clock, nextId, c);
      rows := rows + [c];
      clock := clock + 1;
      nextId := nextId + 1;
      resp := Created(MsgCreated, c);
    }

    /** `POST /api/admin/certificates`: a duplicate is any record with the same `dni`. */
    method AdminPost(form: CertificateForm, toDate: string -> int) returns (resp: PostResponse)
      requires Valid()
      modifies this
      ensures Valid()
      ensures Outcome(resp, rows) == Post(SameDni, old(rows), form, toDate, old(nextId), old(clock))
      ensures Unique(SameDni, old(rows)) ==> Unique(SameDni, rows) && Unique(SameDniAndCourse, rows)
    {
      resp := Create(SameDni, form, toDate);
    }

    /** `POST /api/certificates/search`: a duplicate is a record with the
        same `dni` and the same `course`. */
    method SearchPost(form: CertificateForm, toDate: string -> int) returns (resp: PostResponse)
      requires Valid()
      modifies this
      ensures Valid()
      ensures Outcome(resp, rows) == Post(SameDniAndCourse, old(rows), form, toDate, old(nextId), old(clock))
      ensures Unique(SameDniAndCourse, old(rows)) ==> Unique(SameDniAndCourse, rows)
    {
      resp := Create(SameDniAndCourse, form, toDate);
    }
  }
}
