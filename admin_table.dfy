/** The table logic of the admin page (src/app/admin/page.tsx) taken out of
    the component: the column comparator and sort, the pagination
    arithmetic, the page-number window and the check on a picked PDF. */
module AdminTable {
  import opened Wrappers
  import opened Types
  import TextOrder

  // ---------------------------------------------------------------------------
  // Sorting
  // ---------------------------------------------------------------------------

  datatype Direction = Asc | Desc

  /** The columns the page sorts by: the five header buttons and the
      initial `createdAt`. */
  datatype SortField = FullName | Course | Dni | Company | IssueDate | ExpiryDate | CreatedAt

  /** The direction after a click on the header of `clicked`: a second click
      on the sorted column flips the direction, a click on another column
      starts ascending. */
  function NextDirection(current: SortField, dir: Direction, clicked: SortField): (r: Direction)
    ensures current == clicked ==> r != dir
    ensures current != clicked ==> r == Asc
  {
    if current == clicked && dir == Asc then Desc else Asc
  }

  /** What a column compares by: the timestamp of a date column, the
      lower-cased text of any other. */
  datatype SortKey = Time(t: int) | Text(s: string)

  function KeyOf(field: SortField, c: Certificate): (r: SortKey)
    ensures r.Time? <==> field == IssueDate || field == ExpiryDate || field == CreatedAt
    ensures r.Text? ==> forall i :: 0 <= i < |r.s| ==> !('A' <= r.s[i] <= 'Z')
  {
    match field
    case IssueDate => Time(c.issueDate)
    case ExpiryDate => Time(c.expiryDate)
    case CreatedAt => Time(c.createdAt)
    case FullName => Text(TextOrder.Lower(c.fullName))
    case Course => Text(TextOrder.Lower(c.course))
    case Dni => Text(TextOrder.Lower(c.dni))
    case Company => Text(TextOrder.Lower(c.company))
  }

  /** JavaScript's `<` on two keys of one column. */
  predicate KeyLess(a: SortKey, b: SortKey) {
    match (a, b)
    case (Time(x), Time(y)) => x < y
    case (Text(x), Text(y)) => TextOrder.Less(x, y)
    case _ => false
  }

  /** The comparator handed to `Array.prototype.sort`. It answers -1, 0 or
      1; 0 exactly for equal keys, and -1 exactly when `a`'s key strictly
      precedes `b`'s in the direction chosen. */
  function Compare(field: SortField, dir: Direction, a: Certificate, b: Certificate): (r: int)
    ensures r == -1 || r == 0 || r == 1
    ensures r == 0 <==> KeyOf(field, a) == KeyOf(field, b)
    ensures r == -1 <==> if dir == Asc then KeyLess(KeyOf(field, a), KeyOf(field, b))
                         else KeyLess(KeyOf(field, b), KeyOf(field, a))
  {
    var x, y := KeyOf(field, a), KeyOf(field, b);
    KeyLessTotal(field, a, b);
    KeyLessIrreflexive(x);
    if dir == Asc then
      if KeyLess(x, y) then -1 else if KeyLess(y, x) then 1 else 0
    else
      if KeyLess(y, x) then -1 else if KeyLess(x, y) then 1 else 0
  }

  /** Key `x` may come before key `y` in direction `dir`. */
  predicate InOrder(dir: Direction, x: SortKey, y: SortKey) {
    if dir == Asc then !KeyLess(y, x) else !KeyLess(x, y)
  }

  /** `s` is ordered by the column's key in the direction chosen. */
  predicate Ordered(field: SortField, dir: Direction, s: seq<Certificate>) {
    forall i, j :: 0 <= i < j < |s| ==> InOrder(dir, KeyOf(field, s[i]), KeyOf(field, s[j]))
  }

  lemma KeyLessIrreflexive(x: SortKey)
    ensures !KeyLess(x, x)
  {
    if x.Text? {
      TextOrder.LessIrreflexive(x.s);
    }
  }

  lemma KeyLessTransitive(x: SortKey, y: SortKey, z: SortKey)
    requires KeyLess(x, y) && KeyLess(y, z)
    ensures KeyLess(x, z)
  {
    if x.Text? {
      TextOrder.LessTransitive(x.s, y.s, z.s);
    }
  }

  /** Two keys of one column are equal or one is smaller. */
  lemma KeyLessTotal(field: SortField, a: Certificate, b: Certificate)
    ensures var x, y := KeyOf(field, a), KeyOf(field, b);
            x == y || KeyLess(x, y) || KeyLess(y, x)
  {
    var x, y := KeyOf(field, a), KeyOf(field, b);
    if x.Text? {
      TextOrder.LessTotal(x.s, y.s);
    }
  }

  /** The comparator is consistent: it is antisymmetric, it says "keep
      order" exactly when the keys are in order, and that relation is total
      and transitive. */
  lemma CompareConsistent(field: SortField, dir: Direction, a: Certificate, b: Certificate, c: Certificate)
    ensures Compare(field, dir, a, b) == -Compare(field, dir, b, a)
    ensures Compare(field, dir, a, b) <= 0 <==> InOrder(dir, KeyOf(field, a), KeyOf(field, b))
    ensures InOrder(dir, KeyOf(field, a), KeyOf(field, b)) || InOrder(dir, KeyOf(field, b), KeyOf(field, a))
    ensures InOrder(dir, KeyOf(field, a), KeyOf(field, b)) && InOrder(dir, KeyOf(field, b), KeyOf(field, c))
            ==> InOrder(dir, KeyOf(field, a), KeyOf(field, c))
  {
    var x, y, z := KeyOf(field, a), KeyOf(field, b), KeyOf(field, c);
    KeyLessTotal(field, a, b);
    KeyLessTotal(field, b, c);
    KeyLessTotal(field, a, c);
    if KeyLess(x, y) {
      KeyLessAsymmetric(x, y);
    }
    if KeyLess(y, x) {
      KeyLessAsymmetric(y, x);
    }
    if InOrder(dir, x, y) && InOrder(dir, y, z) {
      if dir == Asc && KeyLess(z, x) {
        if KeyLess(x, y) { KeyLessTransitive(z, x, y); KeyLessAsymmetric(z, y); }
        if y == x { KeyLessAsymmetric(z, y); }
      }
      if dir == Desc && KeyLess(x, z) {
        if KeyLess(y, x) { KeyLessTransitive(y, x, z); KeyLessAsymmetric(y, z); }
        if y == x { KeyLessAsymmetric(y, z); }
      }
    }
  }

  lemma KeyLessAsymmetric(x: SortKey, y: SortKey)
    requires KeyLess(x, y)
    ensures !KeyLess(y, x)
  {
    if KeyLess(y, x) {
      KeyLessTransitive(x, y, x);
      KeyLessIrreflexive(x);
    }
  }

  /** Putting `y` in front of an ordered `t` whose elements all follow `y`
      keeps the order. */
  lemma ConsOrdered(field: SortField, dir: Direction, y: Certificate, t: seq<Certificate>)
    requires Ordered(field, dir, t)
    requires forall z :: z in t ==> InOrder(dir, KeyOf(field, y), KeyOf(field, z))
    ensures Ordered(field, dir, [y] + t)
  {
    var r := [y] + t;
    forall i, j | 0 <= i < j < |r|
      ensures InOrder(dir, KeyOf(field, r[i]), KeyOf(field, r[j]))
    {
      if i > 0 {
        assert r[i] == t[i - 1] && r[j] == t[j - 1];
      } else {
        assert r[j] == t[j - 1] && r[j] in t;
      }
    }
  }

  /** Insertion of `x` into an ordered sequence, in front of the first
      element the comparator does not put before it. */
  function Insert(field: SortField, dir: Direction, x: Certificate, s: seq<Certificate>): (r: seq<Certificate>)
    requires Ordered(field, dir, s)
    ensures multiset(r) == multiset(s) + multiset{x}
    ensures Ordered(field, dir, r)
  {
    if s == [] then [x]
    else if Compare(field, dir, x, s[0]) <= 0 then
      InsertFront(field, dir, x, s);
      [x] + s
    else
      var t := Insert(field, dir, x, s[1..]);
      InsertBehind(field, dir, x, s, t);
      [s[0]] + t
  }

  lemma InsertFront(field: SortField, dir: Direction, x: Certificate, s: seq<Certificate>)
    requires s != [] && Ordered(field, dir, s)
    requires Compare(field, dir, x, s[0]) <= 0
    ensures Ordered(field, dir, [x] + s)
  {
    forall z | z in s
      ensures InOrder(dir, KeyOf(field, x), KeyOf(field, z))
    {
      var k :| 0 <= k < |s| && s[k] == z;
      CompareConsistent(field, dir, x, s[0], z);
    }
    ConsOrdered(field, dir, x, s);
  }

  lemma InsertBehind(field: SortField, dir: Direction, x: Certificate, s: seq<Certificate>, t: seq<Certificate>)
    requires s != [] && Ordered(field, dir, s)
    requires Compare(field, dir, x, s[0]) > 0
    requires Ordered(field, dir, t) && multiset(t) == multiset(s[1..]) + multiset{x}
    ensures Ordered(field, dir, [s[0]] + t)
    ensures multiset([s[0]] + t) == multiset(s) + multiset{x}
  {
    forall z | z in t
      ensures InOrder(dir, KeyOf(field, s[0]), KeyOf(field, z))
    {
      assert z in multiset(t);
      if z == x {
        CompareConsistent(field, dir, x, s[0], x);
      } else {
        assert z in multiset(s[1..]);
        var k :| 0 <= k < |s[1..]| && s[1..][k] == z;
        assert s[k + 1] == z;
      }
    }
    ConsOrdered(field, dir, s[0], t);
    assert s == [s[0]] + s[1..];
  }

  /** The sorted copy the page shows: a permutation of its input, ordered by
      the column's key in the chosen direction. */
  function SortedBy(field: SortField, dir: Direction, s: seq<Certificate>): (r: seq<Certificate>)
    ensures multiset(r) == multiset(s)
    ensures Ordered(field, dir, r)
  {
    if s == [] then []
    else
      assert s == [s[0]] + s[1..];
      Insert(field, dir, s[0], SortedBy(field, dir, s[1..]))
  }

  /** The list the admin route returns, newest `createdAt` first, is already
      in the page's initial order (`createdAt`, descending). */
  lemma NewestFirstIsInitialOrder(s: seq<Certificate>)
    requires forall i, j :: 0 <= i < j < |s| ==> s[i].createdAt > s[j].createdAt
    ensures Ordered(CreatedAt, Desc, s)
  {
  }

  // ---------------------------------------------------------------------------
  // Pagination
  // ---------------------------------------------------------------------------

  /** The options of the page-size selector. */
  const PageSizes: seq<int> := [10, 25, 50, 75, 100]

  /** Buttons in the page-number window. */
  const WindowSize: int := 5

  function Min(a: int, b: int): int { if a <= b then a else b }
  function Max(a: int, b: int): int { if a <= b then b else a }

  /** `Array.prototype.slice(start, end)`: negative positions count from
      the end, and positions are clamped to the array. */
  function Slice<T>(s: seq<T>, start: int, end: int): (r: seq<T>)
    ensures |r| <= |s|
    ensures 0 <= start <= end ==> r == s[Min(start, |s|) .. Min(end, |s|)]
    ensures 0 <= end <= start ==> r == []
    ensures start < 0 && end >= |s| ==> r == s[Max(|s| + start, 0) ..]
  {
    var from := if start < 0 then Max(|s| + start, 0) else Min(start, |s|);
    var to := if end < 0 then Max(|s| + end, 0) else Min(end, |s|);
    if from < to then s[from..to] else []
  }

  /** The items shown on page `page` with `n` items per page. */
  function PageItems<T>(s: seq<T>, page: int, n: int): (r: seq<T>)
    ensures page >= 1 && n >= 1 ==> |r| <= n
    ensures page >= 1 && n >= 1 && (page - 1) * n <= |s|
            ==> (page - 1) * n <= Min(page * n, |s|) && r == s[(page - 1) * n .. Min(page * n, |s|)]
    ensures page >= 1 && n >= 1 && (page - 1) * n >= |s| ==> r == []
  {
    PageSlice(s, page, n);
    Slice(s, page * n - n, page * n)
  }

  /** The slice `[page * n - n, page * n)` of `s` is page `page`. */
  lemma PageSlice<T>(s: seq<T>, page: int, n: int)
    ensures page >= 1 && n >= 1 ==> |Slice(s, page * n - n, page * n)| <= n
    ensures page >= 1 && n >= 1 && (page - 1) * n <= |s|
            ==> (page - 1) * n <= Min(page * n, |s|)
                && Slice(s, page * n - n, page * n) == s[(page - 1) * n .. Min(page * n, |s|)]
    ensures page >= 1 && n >= 1 && (page - 1) * n >= |s| ==> Slice(s, page * n - n, page * n) == []
  {
    if page >= 1 && n >= 1 {
      PageBounds(page, n);
      var first, last := page * n - n, page * n;
      assert 0 <= first <= last;
      assert Slice(s, first, last) == s[Min(first, |s|) .. Min(last, |s|)];
    }
  }

  /** Where page `page` starts and ends. */
  lemma PageBounds(page: int, n: int)
    ensures page * n - n == (page - 1) * n
    ensures page >= 1 && n >= 1 ==> 0 <= (page - 1) * n
  {
    if page >= 1 && n >= 1 {
      MulMonotone(0, page - 1, n);
    }
  }

  /** `Math.ceil(len / n)`: the fewest pages of `n` that hold `len` items. */
  function PageCount(len: nat, n: int): (t: nat)
    requires n >= 1
    ensures t * n >= len
    ensures t == 0 || (t - 1) * n < len
    ensures t == 0 <==> len == 0
  {
    var t := (len + n - 1) / n;
    DivBounds(len + n - 1, n);
    t
  }

  /** `q * n <= a < q * n + n` for `q == a / n`. */
  lemma DivBounds(a: nat, n: int)
    requires n >= 1
    ensures (a / n) * n <= a < (a / n) * n + n
  {
  }

  lemma MulMonotone(a: int, b: int, n: int)
    requires a <= b && n >= 0
    ensures a * n <= b * n
  {
  }

  /** Index `k` lies in the index range of page `k / n + 1`. */
  lemma IndexOnPage(n: int, k: nat)
    requires n >= 1
    ensures var q := k / n;
            q * n <= k < (q + 1) * n && k % n == k - q * n
  {
    var q := k / n;
    DivBounds(k, n);
    assert (q + 1) * n == q * n + n;
  }

  /** No other page's index range holds index `k`. */
  lemma {:induction false} OnlyOnePage(n: int, k: nat, p: int)
    requires n >= 1 && (p - 1) * n <= k < p * n
    ensures p == k / n + 1
  {
    var q := k / n;
    IndexOnPage(n, k);
    if p - 1 < q {
      MulMonotone(p, q, n);
    } else if p - 1 > q {
      MulMonotone(q + 1, p - 1, n);
    }
  }

  /** The page of index `k` is one of the pages counted. */
  lemma {:induction false} PageOfIndexCounted(len: nat, n: int, k: nat)
    requires n >= 1 && k < len
    ensures 1 <= k / n + 1 <= PageCount(len, n)
  {
    var t := PageCount(len, n);
    IndexOnPage(n, k);
    if t < k / n + 1 {
      MulMonotone(t, k / n, n);
    }
  }

  /** Element `k` sits at position `k % n` of page `k / n + 1`. */
  lemma ItemAtIndex<T>(s: seq<T>, n: int, k: nat)
    requires n >= 1 && k < |s|
    ensures var items := PageItems(s, k / n + 1, n);
            k % n < |items| && items[k % n] == s[k]
  {
    var q := k / n;
    IndexOnPage(n, k);
    assert (q + 1 - 1) * n == q * n;
    var items := PageItems(s, q + 1, n);
    assert items == s[q * n .. Min((q + 1) * n, |s|)];
    assert items[k % n] == s[q * n + k % n];
  }

  /** Every element of the list lies on exactly one of the pages
      `1..PageCount(|s|, n)`, namely page `k / n + 1`, at position `k % n`. */
  lemma {:induction false} EveryItemOnOnePage<T>(s: seq<T>, n: int, k: nat)
    requires n >= 1 && k < |s|
    ensures 1 <= k / n + 1 <= PageCount(|s|, n)
    ensures var items := PageItems(s, k / n + 1, n);
            k % n < |items| && items[k % n] == s[k]
    ensures forall p :: 1 <= p <= PageCount(|s|, n) && (p - 1) * n <= k < p * n ==> p == k / n + 1
  {
    PageOfIndexCounted(|s|, n, k);
    ItemAtIndex(s, n, k);
    NoOtherPage(n, k);
  }

  /** The page of index `k` is the only page whose range holds it. */
  lemma NoOtherPage(n: int, k: nat)
    requires n >= 1
    ensures forall p :: (p - 1) * n <= k < p * n ==> p == k / n + 1
  {
    forall p | (p - 1) * n <= k < p * n
      ensures p == k / n + 1
    {
      OnlyOnePage(n, k, p);
    }
  }

  /** The page numbers on the buttons for page `current` of `total`. */
  function PageWindow(current: int, total: nat): (r: seq<int>)
    ensures |r| == Min(WindowSize, total)
    ensures forall i :: 0 <= i < |r| ==> 1 <= r[i] <= total
    ensures forall i :: 0 < i < |r| ==> r[i] == r[i - 1] + 1
    ensures 1 <= current <= total ==> current in r
    ensures 3 <= current <= total - 2 ==> r[2] == current
  {
    var start := Max(1, Min(total - (WindowSize - 1), current - 2));
    var r := seq(Min(WindowSize, total), i => start + i);
    assert 1 <= current <= total ==> r[current - start] == current;
    r
  }

  // ---------------------------------------------------------------------------
  // Picked file
  // ---------------------------------------------------------------------------

  const PdfMimeType: string := "application/pdf"
  const MaxPdfBytes: nat := 10 * 1024 * 1024
  const AlertNotPdf: string := "Por favor seleccione un archivo PDF"
  const AlertTooLarge: string := "El archivo no puede ser mayor a 10MB"

  /** The alert for a picked file, or `None` when the file is accepted. The
      type is checked before the size. */
  function FileAlert(f: File): (alert: Option<string>)
    ensures alert.None? <==> f.mimeType == PdfMimeType && f.size <= MaxPdfBytes
    ensures alert == Some(AlertNotPdf) <==> f.mimeType != PdfMimeType
    ensures alert == Some(AlertTooLarge) <==> f.mimeType == PdfMimeType && f.size > MaxPdfBytes
  {
    if f.mimeType != PdfMimeType then Some(AlertNotPdf)
    else if f.size > MaxPdfBytes then Some(AlertTooLarge)
    else None
  }
}
