/** The state of the admin page component (src/app/admin/page.tsx) and the
    event handlers that update it. React's `useState` pairs become fields;
    each handler becomes a method that changes the fields it sets. */
module AdminPage {
  import opened Wrappers
  import opened Types
  import opened AdminTable

  class AdminPanel {
    var certificates: seq<Certificate>
    var filteredCertificates: seq<Certificate>
    var selectedFile: Option<File>
    var currentPage: int
    var itemsPerPage: int
    var sortField: SortField
    var sortDirection: Direction

    /** The page is numbered from 1 and the page size is one of the selector's options. */
    ghost predicate Valid()
      reads this`currentPage, this`itemsPerPage
    {
      currentPage >= 1 && itemsPerPage in PageSizes
    }

    /** The initial state: empty lists, first page, ten rows, newest first. */
    constructor ()
      ensures Valid()
      ensures certificates == [] && filteredCertificates == [] && selectedFile == None
      ensures currentPage == 1 && itemsPerPage == 10
      ensures sortField == CreatedAt && sortDirection == Desc
    {
      certificates, filteredCertificates, selectedFile := [], [], None;
      currentPage, itemsPerPage := 1, 10;
      sortField, sortDirection := CreatedAt, Desc;
    }

    /** A successful fetch of the table replaces both lists; the page number,
        page size and sort state are kept. */
    method ReceiveCertificates(list: seq<Certificate>)
      requires Valid()
      modifies this`certificates, this`filteredCertificates
      ensures Valid()
      ensures certificates == list && filteredCertificates == list
    {
      certificates := list;
      filteredCertificates := list;
    }

    /** A click on the header of `field`. */
    method SortCertificates(field: SortField)
      requires Valid()
      modifies this`sortField, this`sortDirection, this`currentPage, this`filteredCertificates
      ensures Valid()
      ensures sortDirection == Desc <==> old(sortField) == field && old(sortDirection) == Asc
      ensures sortField == field && currentPage == 1
      ensures multiset(filteredCertificates) == multiset(old(filteredCertificates))
      ensures Ordered(field, sortDirection, filteredCertificates)
    {
      var direction := NextDirection(sortField, sortDirection, field);
      sortField := field;
      sortDirection := direction;
      currentPage := 1;
      filteredCertificates := SortedBy(field, direction, filteredCertificates);
    }

    /** The number of pages: the fewest pages of `itemsPerPage` rows that
        hold the filtered list, none for an empty list. */
    function TotalPages(): (t: nat)
      reads this`filteredCertificates, this`itemsPerPage
      requires itemsPerPage >= 1
      ensures t * itemsPerPage >= |filteredCertificates|
      ensures t == 0 || (t - 1) * itemsPerPage < |filteredCertificates|
      ensures t == 0 <==> filteredCertificates == []
    {
      PageCount(|filteredCertificates|, itemsPerPage)
    }

    /** The rows shown: at most one page of the filtered list, taken from
        where the current page starts. */
    function CurrentItems(): (r: seq<Certificate>)
      reads this`filteredCertificates, this`itemsPerPage, this`currentPage
      requires Valid()
      ensures |r| <= itemsPerPage
      ensures (currentPage - 1) * itemsPerPage <= |filteredCertificates|
              ==> r == filteredCertificates[(currentPage - 1) * itemsPerPage
                                            .. Min(currentPage * itemsPerPage, |filteredCertificates|)]
      ensures (currentPage - 1) * itemsPerPage >= |filteredCertificates| ==> r == []
    {
      PageItems(filteredCertificates, currentPage, itemsPerPage)
    }

    /** The page-number buttons; none are drawn unless there are two pages. */
    function PageButtons(): (r: seq<int>)
      reads this`filteredCertificates, this`itemsPerPage, this`currentPage
      requires Valid()
      ensures forall i :: 0 <= i < |r| ==> 1 <= r[i] <= TotalPages()
      ensures TotalPages() > 1 ==> |r| == Min(WindowSize, TotalPages())
      ensures TotalPages() > 1 && currentPage <= TotalPages() ==> currentPage in r
      ensures forall i :: 0 < i < |r| ==> r[i] == r[i - 1] + 1
      ensures TotalPages() <= 1 ==> r == []
    {
      if TotalPages() > 1 then PageWindow(currentPage, TotalPages()) else []
    }

    /** "Anterior": shown only with two or more pages, disabled on page 1. */
    method Previous()
      requires Valid()
      modifies this`currentPage
      ensures Valid()
      ensures currentPage == if TotalPages() > 1 && old(currentPage) != 1
                             then Max(1, old(currentPage) - 1) else old(currentPage)
      ensures 1 <= old(currentPage) <= TotalPages() ==> 1 <= currentPage <= TotalPages()
    {
      if TotalPages() > 1 && currentPage != 1 {
        currentPage := Max(1, currentPage - 1);
      }
    }

    /** "Siguiente": shown only with two or more pages, disabled on the last page. */
    method Next()
      requires Valid()
      modifies this`currentPage
      ensures Valid()
      ensures currentPage == if TotalPages() > 1 && old(currentPage) != TotalPages()
                             then Min(TotalPages(), old(currentPage) + 1) else old(currentPage)
      ensures 1 <= old(currentPage) <= TotalPages() ==> 1 <= currentPage <= TotalPages()
    {
      if TotalPages() > 1 && currentPage != TotalPages() {
        currentPage := Min(TotalPages(), currentPage + 1);
      }
    }

    /** A click on one of the page-number buttons. */
    method GoToPage(pageNum: int)
      requires Valid()
      requires pageNum in PageButtons()
      modifies this`currentPage
      ensures Valid()
      ensures currentPage == pageNum && 1 <= currentPage <= TotalPages()
    {
      currentPage := pageNum;
    }

    /** A new choice in the page-size selector goes back to page 1. */
    method ChangeItemsPerPage(n: int)
      requires Valid()
      requires n in PageSizes
      modifies this`itemsPerPage, this`currentPage
      ensures Valid()
      ensures itemsPerPage == n && currentPage == 1
    {
      itemsPerPage := n;
      currentPage := 1;
    }

    /** A change of the file input: the first picked file, if any, becomes
        `selectedFile` when it is a PDF of at most 10 MiB; otherwise the
        alert is returned and the selection is kept. */
    method HandleFileChange(files: seq<File>) returns (alert: Option<string>)
      requires Valid()
      modifies this`selectedFile
      ensures Valid()
      ensures files == [] ==> alert == None && selectedFile == old(selectedFile)
      ensures files != [] ==> alert == FileAlert(files[0])
      ensures files != [] && alert.None? ==> selectedFile == Some(files[0])
      ensures alert.Some? ==> selectedFile == old(selectedFile)
    {
      alert := None;
      if files != [] {
        var file := files[0];
        if file.mimeType != PdfMimeType {
          return Some(AlertNotPdf);
        }
        if file.size > MaxPdfBytes {
          return Some(AlertTooLarge);
        }
        selectedFile := Some(file);
      }
    }
  }
}
