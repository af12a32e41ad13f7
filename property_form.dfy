/**
 * Rules the property submission page and the property edit page share, each
 * page holding its own copy in the source: the image types and size accepted
 * by the file picker, the 20-image cap, removal of one picked image by index,
 * and the four checks of validateForm.
 */
module PropertyForm {
  import opened Common

  /** ALLOWED_IMAGE_TYPES */
  const AllowedImageTypes: seq<string> := ["image/jpeg", "image/png", "image/webp", "image/gif"]

  /** MAX_FILE_SIZE: 5 MiB. */
  const MaxFileSize: nat := 5 * 1024 * 1024

  /** The most images a listing may hold. */
  const MaxImages: nat := 20

  /** The parts of a browser File the pages read. */
  datatype ImageFile = ImageFile(name: string, mimeType: string, size: nat)

  /** A file the picker keeps: an allowed type and at most 5 MiB. */
  predicate Acceptable(f: ImageFile) {
    f.mimeType in AllowedImageTypes && f.size <= MaxFileSize
  }

  /** The files of a batch that the picker keeps, in their order: never more than offered, and each acceptable. */
  function AcceptedFiles(files: seq<ImageFile>): (r: seq<ImageFile>)
    ensures |r| <= |files|
    ensures forall i :: 0 <= i < |r| ==> Acceptable(r[i])
  {
    if files == [] then []
    else (if Acceptable(files[0]) then [files[0]] else []) + AcceptedFiles(files[1..])
  }

  /** Keeping works file by file: it distributes over concatenation, so kept files keep their order. */
  lemma {:induction false} AcceptedDistributes(a: seq<ImageFile>, b: seq<ImageFile>)
    ensures AcceptedFiles(a + b) == AcceptedFiles(a) + AcceptedFiles(b)
  {
    if a != [] {
      assert (a + b)[1..] == a[1..] + b;
      AcceptedDistributes(a[1..], b);
    } else {
      assert a + b == b;
    }
  }

  /** Exactly the acceptable files survive: an offered acceptable file is never dropped. */
  lemma {:induction false} AcceptedFilesSpec(files: seq<ImageFile>, f: ImageFile)
    ensures f in AcceptedFiles(files) <==> f in files && Acceptable(f)
  {
    if files != [] {
      AcceptedFilesSpec(files[1..], f);
      assert files == [files[0]] + files[1..];
    }
  }

  /**
   * The forEach over the offered batch: a file of another type or over 5 MiB
   * is skipped (with a toast), every other file is pushed onto validFiles.
   */
  method SelectValidFiles(files: seq<ImageFile>) returns (validFiles: seq<ImageFile>)
    ensures validFiles == AcceptedFiles(files)
  {
    validFiles := [];
    var i := 0;
    while i < |files|
      invariant 0 <= i <= |files|
      invariant validFiles == AcceptedFiles(files[..i])
    {
      var file := files[i];
      assert files[..i + 1] == files[..i] + [file];
      AcceptedDistributes(files[..i], [file]);
      if file.mimeType in AllowedImageTypes && file.size <= MaxFileSize {
        validFiles := validFiles + [file];
      }
      i := i + 1;
    }
    assert files[..i] == files;
  }

  /** The length of `files.slice(0, end)`: a negative end counts back from the end of the array. */
  function SliceEnd(len: nat, end: int): (k: nat)
    ensures k <= len
  {
    if end < 0 then (if len + end > 0 then len + end else 0)
    else if end < len then end
    else len
  }

  /**
   * `files.slice(0, end)`: a prefix of the files. A budget from 0 to the
   * length keeps that many files, a larger one keeps them all, and a negative
   * one drops that many from the end (everything, when it exceeds the length).
   */
  function Slice(files: seq<ImageFile>, end: int): (r: seq<ImageFile>)
    ensures r <= files
    ensures 0 <= end <= |files| ==> |r| == end
    ensures |files| <= end ==> r == files
    ensures end < 0 ==> |r| == if |files| + end > 0 then |files| + end else 0
  {
    files[..SliceEnd(|files|, end)]
  }

  /**
   * A batch offered against a non-negative budget adds at most that many
   * files; so a selection that starts within the cap stays within it.
   */
  lemma BudgetBoundsUpload(count: int, files: seq<ImageFile>)
    requires count <= MaxImages
    ensures count + |AcceptedFiles(Slice(files, MaxImages - count))| <= MaxImages
  {
  }

  /** Against a negative budget b, `slice(0, b)` does not come out empty: it keeps all but the last -b files. */
  lemma NegativeBudgetKeepsPrefix(files: seq<ImageFile>, budget: int)
    requires budget < 0 && |files| + budget > 0
    ensures Slice(files, budget) == files[..|files| + budget] && |Slice(files, budget)| > 0
  {
  }

  /**
   * `prev.filter((_, i) => i !== index)`: every element whose position is not
   * index; one element shorter when index is a position of s, as long otherwise.
   */
  function RemoveAt<T>(s: seq<T>, index: int): (r: seq<T>)
    ensures |r| == if 0 <= index < |s| then |s| - 1 else |s|
  {
    if s == [] then [] else (if index == 0 then [] else [s[0]]) + RemoveAt(s[1..], index - 1)
  }

  /** Removal by index drops exactly that position when it exists and changes nothing otherwise. */
  lemma {:induction false} RemoveAtSpec<T>(s: seq<T>, index: int)
    ensures 0 <= index < |s| ==> RemoveAt(s, index) == s[..index] + s[index + 1..]
    ensures !(0 <= index < |s|) ==> RemoveAt(s, index) == s
  {
    if s != [] {
      RemoveAtSpec(s[1..], index - 1);
      if index == 0 {
        assert s[..0] + s[1..] == s[1..];
      } else if 0 < index < |s| {
        assert s[..index] == [s[0]] + s[1..][..index - 1];
        assert s[index + 1..] == s[1..][index..];
      } else {
        assert s == [s[0]] + s[1..];
      }
    }
  }

  /** The outcome of validateForm: acceptance, or the first check that failed (named by its toast). */
  datatype FormCheck = Valid | MissingTitle | InvalidPrice | InvalidArea | MissingDistrict

  /** `!value || parseFloat(value) <= 0` fails; a number input yields no value or a parsed number. */
  predicate Positive(value: Option<real>) {
    value.Some? && value.value > 0.0
  }

  /**
   * validateForm: title, price, area, district, checked in that order. The
   * form is accepted exactly when the title and the district each hold a
   * non-whitespace character and price and area are positive numbers; each
   * failure names the first check in order that fails.
   */
  function ValidateForm(title: string, price: Option<real>, area: Option<real>, district: string): (r: FormCheck)
    ensures r == Valid <==> !AllWhitespace(title) && Positive(price) && Positive(area) && !AllWhitespace(district)
    ensures r == MissingTitle <==> AllWhitespace(title)
    ensures r == InvalidPrice <==> !AllWhitespace(title) && !Positive(price)
    ensures r == InvalidArea <==> !AllWhitespace(title) && Positive(price) && !Positive(area)
    ensures r == MissingDistrict <==> !AllWhitespace(title) && Positive(price) && Positive(area) && AllWhitespace(district)
  {
    if IsBlank(title) then MissingTitle
    else if !Positive(price) then InvalidPrice
    else if !Positive(area) then InvalidArea
    else if IsBlank(district) then MissingDistrict
    else Valid
  }
}
