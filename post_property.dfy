/**
 * The property submission page: slugify, the image picker's cap and filter,
 * removal of a picked image, and the listing_type sent for the chosen VIP tier.
 */
module PostProperty {
  import opened Common
  import opened PropertyForm

  // ----- slugify -----

  /**
   * The Unicode data slugify relies on beyond ASCII: the lower-case mapping of
   * a character and its canonical (NFD) decomposition. On ASCII both are fixed
   * by the standard and written out below; for other characters they are given.
   */
  datatype UnicodeTables = UnicodeTables(lower: char -> string, decompose: char -> string)

  /** An ASCII string: every code point below 128. */
  predicate IsAscii(s: string) {
    forall i :: 0 <= i < |s| ==> s[i] < 128 as char
  }

  /** `toLowerCase()`: on ASCII text it is the ASCII lower-casing, so it keeps the length and leaves no capital letter. */
  function LowerCase(u: UnicodeTables, s: string): (r: string)
    ensures IsAscii(s) ==> r == AsciiLower(s)
    ensures IsAscii(s) ==> |r| == |s| && IsAscii(r) && forall i :: 0 <= i < |r| ==> !('A' <= r[i] <= 'Z')
  {
    if s == [] then []
    else (if s[0] < 128 as char then AsciiLower([s[0]]) else u.lower(s[0])) + LowerCase(u, s[1..])
  }

  /** `normalize("NFD")`; ASCII characters have no decomposition, so ASCII text is left as it is. */
  function Decompose(u: UnicodeTables, s: string): (r: string)
    ensures IsAscii(s) ==> r == s
  {
    if s == [] then []
    else (if s[0] < 128 as char then [s[0]] else u.decompose(s[0])) + Decompose(u, s[1..])
  }

  /** A combining diacritical mark, U+0300 to U+036F. */
  predicate IsCombiningMark(c: char) {
    '\U{300}' <= c <= '\U{36F}'
  }

  /**
   * `replace(/[\u0300-\u036f]/g, "")`: no combining mark is left;
   * StripMarksDistributes adds that every other character is kept, in order.
   */
  function StripMarks(s: string): (r: string)
    ensures |r| <= |s|
    ensures forall i :: 0 <= i < |r| ==> !IsCombiningMark(r[i])
    ensures (forall i :: 0 <= i < |s| ==> !IsCombiningMark(s[i])) ==> r == s
  {
    if s == [] then []
    else (if IsCombiningMark(s[0]) then [] else [s[0]]) + StripMarks(s[1..])
  }

  /** `replace(/đ/g, "d")`: no đ is left, and every other character stays in its place. */
  function ReplaceDStroke(s: string): (r: string)
    ensures |r| == |s|
    ensures forall i :: 0 <= i < |s| ==> r[i] == (if s[i] == 'đ' then 'd' else s[i])
  {
    if s == [] then []
    else [if s[0] == 'đ' then 'd' else s[0]] + ReplaceDStroke(s[1..])
  }

  /** A character of the class [a-z0-9]. */
  predicate IsSlugChar(c: char) {
    'a' <= c <= 'z' || '0' <= c <= '9'
  }

  /** Drops the run of characters outside [a-z0-9] that starts the string. */
  function SkipRun(s: string): (r: string)
    ensures |r| <= |s|
    ensures r == s[|s| - |r|..]
    ensures r != [] ==> IsSlugChar(r[0])
  {
    if s != [] && !IsSlugChar(s[0]) then SkipRun(s[1..]) else s
  }

  /** A string over [a-z0-9-] in which no two dashes stand next to each other. */
  predicate DashSeparated(s: string) {
    && (forall i :: 0 <= i < |s| ==> IsSlugChar(s[i]) || s[i] == '-')
    && (forall i, j :: 0 <= i && j == i + 1 < |s| ==> s[i] == '-' ==> s[j] != '-')
  }

  /**
   * `replace(/[^a-z0-9]+/g, "-")`: each maximal run outside [a-z0-9] becomes
   * one dash (CollapseIsMarkThenMerge), and the [a-z0-9] characters are kept
   * in order (CollapseKeepsSlugChars).
   */
  function CollapseRuns(s: string): (r: string)
    ensures DashSeparated(r)
    ensures s != [] && IsSlugChar(s[0]) ==> r != [] && r[0] == s[0]
    decreases |s|
  {
    if s == [] then []
    else if IsSlugChar(s[0]) then [s[0]] + CollapseRuns(s[1..])
    else ['-'] + CollapseRuns(SkipRun(s[1..]))
  }

  /** Drops the leading dashes. */
  function DropLeadingDashes(s: string): (r: string)
    ensures |r| <= |s|
    ensures r == s[|s| - |r|..]
    ensures forall i :: 0 <= i < |s| - |r| ==> s[i] == '-'
    ensures r != [] ==> r[0] != '-'
  {
    if s != [] && s[0] == '-' then
      var r := DropLeadingDashes(s[1..]);
      assert s[1..][|s| - 1 - |r|..] == s[|s| - |r|..];
      r
    else s
  }

  /** How many dashes the string starts with: the ones DropLeadingDashes drops. */
  function LeadingDashes(s: string): (n: nat)
    ensures n <= |s|
    ensures forall i :: 0 <= i < n ==> s[i] == '-'
  {
    |s| - |DropLeadingDashes(s)|
  }

  /** Drops the trailing dashes. */
  function DropTrailingDashes(s: string): (r: string)
    ensures |r| <= |s|
    ensures r == s[..|r|]
    ensures forall i :: |r| <= i < |s| ==> s[i] == '-'
    ensures r != [] ==> r[|r| - 1] != '-'
  {
    if s != [] && s[|s| - 1] == '-' then
      var r := DropTrailingDashes(s[..|s| - 1]);
      assert s[..|s| - 1][..|r|] == s[..|r|];
      r
    else s
  }

  /**
   * `replace(/^-+|-+$/g, "")`: the middle of the string, with only dashes cut
   * off at either end; no dash is left at either end, and a dash-separated
   * string stays so.
   */
  function TrimDashes(s: string): (r: string)
    ensures |r| <= |s|
    ensures LeadingDashes(s) + |r| <= |s| && r == s[LeadingDashes(s)..LeadingDashes(s) + |r|]
    ensures forall i :: 0 <= i < |s| && !(LeadingDashes(s) <= i < LeadingDashes(s) + |r|) ==> s[i] == '-'
    ensures r != [] ==> r[0] != '-' && r[|r| - 1] != '-'
    ensures DashSeparated(s) ==> DashSeparated(r)
  {
    TrimmedInfix(s);
    TrimmedShape(s);
    DropTrailingDashes(DropLeadingDashes(s))
  }

  /** Dropping the dashes at both ends keeps the middle of the string. */
  lemma TrimmedInfix(s: string)
    ensures var r := DropTrailingDashes(DropLeadingDashes(s));
      LeadingDashes(s) + |r| <= |s| && r == s[LeadingDashes(s)..LeadingDashes(s) + |r|]
    ensures var r := DropTrailingDashes(DropLeadingDashes(s));
      forall i :: 0 <= i < |s| && !(LeadingDashes(s) <= i < LeadingDashes(s) + |r|) ==> s[i] == '-'
  {
    var d := DropLeadingDashes(s);
    var e := DropTrailingDashes(d);
    var a := LeadingDashes(s);
    assert e == s[a..a + |e|] by {
      assert d == s[a..];
      assert e == d[..|e|];
    }
    forall i | a + |e| <= i < |s|
      ensures s[i] == '-'
    {
      assert s[i] == d[i - a];
    }
  }

  /** Dropping the dashes at both ends leaves none there, and keeps a string dash-separated. */
  lemma TrimmedShape(s: string)
    ensures var r := DropTrailingDashes(DropLeadingDashes(s));
      r != [] ==> r[0] != '-' && r[|r| - 1] != '-'
    ensures DashSeparated(s) ==> DashSeparated(DropTrailingDashes(DropLeadingDashes(s)))
  {
    var d := DropLeadingDashes(s);
    var e := DropTrailingDashes(d);
    assert e != [] ==> e[0] == d[0];
    if DashSeparated(s) {
      DashSeparatedInfix(s, |s| - |d|, |s|);
      DashSeparatedInfix(d, 0, |e|);
    }
  }

  /** slugify: every slug has only [a-z0-9-], no doubled dash and no dash at either end. */
  function Slugify(u: UnicodeTables, s: string): (r: string)
    ensures IsSlug(r)
  {
    TrimDashes(CollapseRuns(ReplaceDStroke(StripMarks(Decompose(u, LowerCase(u, s))))))
  }

  /** What a slug looks like: [a-z0-9] words joined by single dashes, no dash at either end. */
  predicate IsSlug(s: string) {
    DashSeparated(s) && (s != [] ==> s[0] != '-' && s[|s| - 1] != '-')
  }

  lemma DashSeparatedInfix(s: string, a: nat, b: nat)
    requires DashSeparated(s) && a <= b <= |s|
    ensures DashSeparated(s[a..b])
  {
    assert forall i :: 0 <= i < b - a ==> s[a..b][i] == s[a + i];
  }

  /** After a dash in a dash-separated string comes a character of [a-z0-9], if anything. */
  lemma AfterDash(s: string, k: nat)
    requires DashSeparated(s) && k < |s| && s[k] == '-'
    ensures DashSeparated(s[k + 1..])
    ensures s[k + 1..] != [] ==> IsSlugChar(s[k + 1])
  {
    DashSeparatedInfix(s, k + 1, |s|);
  }

  /** A slug is left alone by the run collapsing. */
  lemma {:induction false} CollapseKeepsSlug(s: string)
    requires DashSeparated(s) && (s != [] ==> s[0] != '-')
    ensures CollapseRuns(s) == s
    decreases |s|
  {
    if s != [] {
      var rest := s[1..];
      assert IsSlugChar(s[0]);
      assert s == [s[0]] + rest;
      DashSeparatedInfix(s, 1, |s|);
      if rest != [] && rest[0] == '-' {
        AfterDash(s, 1);
        var tail := s[2..];
        assert rest[1..] == tail;
        assert rest == ['-'] + tail;
        CollapseKeepsSlug(tail);
        CollapseAtDash(rest);
        calc {
          CollapseRuns(rest);
          ['-'] + CollapseRuns(tail);
          ['-'] + tail;
        }
      } else {
        CollapseKeepsSlug(rest);
      }
      calc {
        CollapseRuns(s);
        [s[0]] + CollapseRuns(rest);
        [s[0]] + rest;
      }
    }
  }

  /** A single dash followed by [a-z0-9] or by nothing collapses to itself. */
  lemma CollapseAtDash(s: string)
    requires s != [] && s[0] == '-' && (|s| > 1 ==> IsSlugChar(s[1]))
    ensures CollapseRuns(s) == ['-'] + CollapseRuns(s[1..])
  {
    assert SkipRun(s[1..]) == s[1..];
  }

  /** The earlier steps leave a string over [a-z0-9-] unchanged: it is ASCII without capitals, marks or đ. */
  lemma SlugAlphabetFixed(u: UnicodeTables, s: string)
    requires forall i :: 0 <= i < |s| ==> IsSlugChar(s[i]) || s[i] == '-'
    ensures ReplaceDStroke(StripMarks(Decompose(u, LowerCase(u, s)))) == s
  {
    assert IsAscii(s);
    forall i | 0 <= i < |s|
      ensures AsciiLower(s)[i] == s[i]
    {
      AsciiLowerAt(s, i);
    }
    assert AsciiLower(s) == s;
    assert ReplaceDStroke(s) == s;
  }

  /** slugify changes nothing in a slug. */
  lemma SlugifyFixesSlugs(u: UnicodeTables, s: string)
    requires IsSlug(s)
    ensures Slugify(u, s) == s
  {
    SlugAlphabetFixed(u, s);
    CollapseKeepsSlug(s);
    assert DropLeadingDashes(s) == s;
    assert DropTrailingDashes(s) == s;
  }

  /** slugify is idempotent. */
  lemma SlugifyIdempotent(u: UnicodeTables, s: string)
    ensures Slugify(u, Slugify(u, s)) == Slugify(u, s)
  {
    SlugifyFixesSlugs(u, Slugify(u, s));
  }

  // ----- what a slug keeps -----

  /** The characters of [a-z0-9] in the string, in order. */
  function SlugChars(s: string): (r: string)
    ensures forall i :: 0 <= i < |r| ==> IsSlugChar(r[i])
  {
    if s == [] then [] else (if IsSlugChar(s[0]) then [s[0]] else []) + SlugChars(s[1..])
  }

  lemma {:induction false} SlugCharsDistributes(a: string, b: string)
    ensures SlugChars(a + b) == SlugChars(a) + SlugChars(b)
  {
    if a == [] {
      assert a + b == b;
    } else {
      var head := if IsSlugChar(a[0]) then [a[0]] else [];
      var c := a + b;
      assert c[0] == a[0] && c[1..] == a[1..] + b;
      SlugCharsDistributes(a[1..], b);
      calc {
        SlugChars(c);
        head + SlugChars(a[1..] + b);
        head + (SlugChars(a[1..]) + SlugChars(b));
        (head + SlugChars(a[1..])) + SlugChars(b);
      }
    }
  }

  /** Removing combining marks works character by character, keeping the order of what is left. */
  lemma {:induction false} StripMarksDistributes(a: string, b: string)
    ensures StripMarks(a + b) == StripMarks(a) + StripMarks(b)
    ensures |a| == 1 ==> StripMarks(a) == if IsCombiningMark(a[0]) then [] else a
  {
    if a == [] {
      assert a + b == b;
    } else {
      var head := if IsCombiningMark(a[0]) then [] else [a[0]];
      var c := a + b;
      assert c[0] == a[0] && c[1..] == a[1..] + b;
      StripMarksDistributes(a[1..], b);
      calc {
        StripMarks(c);
        head + StripMarks(a[1..] + b);
        head + (StripMarks(a[1..]) + StripMarks(b));
        (head + StripMarks(a[1..])) + StripMarks(b);
      }
      if |a| == 1 {
        assert a[1..] == [];
      }
    }
  }

  /** The run skipped holds no character of [a-z0-9]. */
  lemma {:induction false} SkipRunKeepsSlugChars(s: string)
    ensures SlugChars(SkipRun(s)) == SlugChars(s)
    decreases |s|
  {
    if s != [] && !IsSlugChar(s[0]) {
      SkipRunKeepsSlugChars(s[1..]);
    }
  }

  /** Collapsing runs keeps every character of [a-z0-9], in order. */
  lemma {:induction false} CollapseKeepsSlugChars(s: string)
    ensures SlugChars(CollapseRuns(s)) == SlugChars(s)
    decreases |s|
  {
    if s != [] {
      if IsSlugChar(s[0]) {
        CollapseKeepsSlugChars(s[1..]);
        SlugCharsDistributes([s[0]], CollapseRuns(s[1..]));
      } else {
        CollapseKeepsSlugChars(SkipRun(s[1..]));
        SkipRunKeepsSlugChars(s[1..]);
        SlugCharsDistributes(['-'], CollapseRuns(SkipRun(s[1..])));
      }
    }
  }

  /** Every character outside [a-z0-9] replaced by a dash. */
  function MarkRuns(s: string): (r: string)
    ensures |r| == |s|
    ensures forall i :: 0 <= i < |s| ==> r[i] == if IsSlugChar(s[i]) then s[i] else '-'
  {
    if s == [] then [] else [if IsSlugChar(s[0]) then s[0] else '-'] + MarkRuns(s[1..])
  }

  /** A dash directly after a dash dropped. */
  function MergeDashes(t: string): (r: string)
    ensures |r| <= |t|
  {
    if |t| <= 1 then t
    else if t[0] == '-' && t[1] == '-' then MergeDashes(t[1..])
    else [t[0]] + MergeDashes(t[1..])
  }

  /** A run starting outside [a-z0-9] marks and merges into a single dash. */
  lemma {:induction false} MergeRun(s: string)
    requires s != [] && !IsSlugChar(s[0])
    ensures MergeDashes(MarkRuns(s)) == ['-'] + MergeDashes(MarkRuns(SkipRun(s[1..])))
    decreases |s|
  {
    var m := MarkRuns(s);
    assert m[1..] == MarkRuns(s[1..]);
    if |s| > 1 && !IsSlugChar(s[1]) {
      MergeRun(s[1..]);
    } else if |s| > 1 {
      assert SkipRun(s[1..]) == s[1..];
    }
  }

  /**
   * The run collapsing, by a second definition: mark every character outside
   * [a-z0-9] with a dash, then merge adjacent dashes. So each maximal run
   * becomes exactly one dash.
   */
  lemma {:induction false} CollapseIsMarkThenMerge(s: string)
    ensures CollapseRuns(s) == MergeDashes(MarkRuns(s))
    decreases |s|
  {
    if s != [] {
      var m := MarkRuns(s);
      assert m[1..] == MarkRuns(s[1..]);
      if IsSlugChar(s[0]) {
        CollapseIsMarkThenMerge(s[1..]);
      } else {
        CollapseIsMarkThenMerge(SkipRun(s[1..]));
        MergeRun(s);
      }
    }
  }

  /** Cutting dashes off the ends keeps every character of [a-z0-9], in order. */
  lemma {:induction false} DropLeadingKeepsSlugChars(s: string)
    ensures SlugChars(DropLeadingDashes(s)) == SlugChars(s)
  {
    if s != [] && s[0] == '-' {
      DropLeadingKeepsSlugChars(s[1..]);
    }
  }

  lemma {:induction false} DropTrailingKeepsSlugChars(s: string)
    ensures SlugChars(DropTrailingDashes(s)) == SlugChars(s)
  {
    if s != [] && s[|s| - 1] == '-' {
      var p := s[..|s| - 1];
      DropTrailingKeepsSlugChars(p);
      assert s == p + ['-'];
      SlugCharsDistributes(p, ['-']);
    }
  }

  /**
   * The slug keeps the letters and digits of the lower-cased, decomposed,
   * mark-free title, in order: only the characters outside [a-z0-9] change.
   */
  lemma SlugKeepsLettersAndDigits(u: UnicodeTables, s: string)
    ensures SlugChars(Slugify(u, s)) == SlugChars(ReplaceDStroke(StripMarks(Decompose(u, LowerCase(u, s)))))
  {
    var t := ReplaceDStroke(StripMarks(Decompose(u, LowerCase(u, s))));
    var c := CollapseRuns(t);
    CollapseKeepsSlugChars(t);
    DropLeadingKeepsSlugChars(c);
    DropTrailingKeepsSlugChars(DropLeadingDashes(c));
  }

  /** For an ASCII title the slug keeps exactly the title's lower-cased letters and its digits, in order. */
  lemma SlugOfAscii(u: UnicodeTables, s: string)
    requires IsAscii(s)
    ensures SlugChars(Slugify(u, s)) == SlugChars(AsciiLower(s))
  {
    var l := LowerCase(u, s);
    assert forall i :: 0 <= i < |l| ==> !IsCombiningMark(l[i]);
    assert ReplaceDStroke(l) == l;
    SlugKeepsLettersAndDigits(u, s);
  }

  /** Both the lower-case đ and the capital Đ (lower-cased first) become d. */
  lemma DStrokeBecomesD(u: UnicodeTables)
    requires u.lower('Đ') == "đ" && u.lower('đ') == "đ" && u.decompose('đ') == "đ"
    ensures Slugify(u, "đ") == "d" && Slugify(u, "Đ") == "d"
  {
    assert LowerCase(u, "Đ") == "đ";
    assert LowerCase(u, "đ") == "đ";
    assert Decompose(u, "đ") == "đ";
    assert StripMarks("đ") == "đ";
    assert ReplaceDStroke("đ") == "d";
    assert CollapseRuns("d") == "d";
  }

  // ----- listing_type -----

  /** The VipType values of the submission form. */
  const PostVipTypes: seq<string> := ["none", "KIMCUONG", "VANG", "BAC"]

  /** `vipType === "none" ? "thuong" : vipType.toLowerCase()`: a lower-case name, as long as the tier for a tier. */
  function ListingType(vipType: string): (r: string)
    requires vipType in PostVipTypes
    ensures forall i :: 0 <= i < |r| ==> !('A' <= r[i] <= 'Z')
    ensures vipType != "none" ==> |r| == |vipType|
  {
    if vipType == "none" then "thuong" else AsciiLower(vipType)
  }

  /**
   * The plain listing is stored as "thuong" and no tier is; a tier is stored
   * as a name that upper-cases back to the tier.
   */
  lemma ListingTypeValues(vipType: string)
    requires vipType in PostVipTypes
    ensures ListingType(vipType) == "thuong" <==> vipType == "none"
    ensures vipType != "none" ==> AsciiUpper(ListingType(vipType)) == vipType
    ensures vipType == "KIMCUONG" ==> ListingType(vipType) == "kimcuong"
    ensures vipType == "VANG" ==> ListingType(vipType) == "vang"
    ensures vipType == "BAC" ==> ListingType(vipType) == "bac"
  {
    if vipType == "KIMCUONG" {
      TierListing(vipType, "kimcuong");
    } else if vipType == "VANG" {
      TierListing(vipType, "vang");
    } else if vipType == "BAC" {
      TierListing(vipType, "bac");
    }
  }

  /** A tier in capitals is stored as its lower-case name, which upper-cases back to the tier. */
  lemma TierListing(tier: string, lower: string)
    requires tier in PostVipTypes && tier != "none"
    requires |tier| == |lower|
    requires forall i :: 0 <= i < |tier| ==> 'A' <= tier[i] <= 'Z' && lower[i] == (tier[i] as int + 32) as char
    ensures ListingType(tier) == lower && AsciiUpper(lower) == tier
  {
    LowerOfCapitals(tier, lower);
    UpperOfLower(tier);
    UpperKeepsUpper(tier);
  }

  /** A name in capitals lower-cases to the name whose every letter is 32 code points further on. */
  lemma LowerOfCapitals(tier: string, lower: string)
    requires |tier| == |lower|
    requires forall i :: 0 <= i < |tier| ==> 'A' <= tier[i] <= 'Z' && lower[i] == (tier[i] as int + 32) as char
    ensures AsciiLower(tier) == lower
  {
    forall i | 0 <= i < |tier| ensures AsciiLower(tier)[i] == lower[i] {
      AsciiLowerAt(tier, i);
    }
  }

  // ----- the selected images -----

  class PostForm {
    /** selectedImages */
    var selectedImages: seq<ImageFile>
    /** imagePreviewUrls */
    var imagePreviewUrls: seq<string>

    constructor ()
      ensures selectedImages == [] && imagePreviewUrls == []
    {
      selectedImages := [];
      imagePreviewUrls := [];
    }

    /**
     * handleImageUpload: of the offered files only the first `20 - selected`
     * are looked at; those of an allowed type and within 5 MiB are appended,
     * in order. A picker without files changes nothing.
     */
    method HandleImageUpload(files: Option<seq<ImageFile>>)
      modifies this
      ensures files.None? ==> selectedImages == old(selectedImages)
      ensures files.Some? ==>
        selectedImages == old(selectedImages) + AcceptedFiles(Slice(files.value, MaxImages - |old(selectedImages)|))
      ensures |old(selectedImages)| <= MaxImages ==> |selectedImages| <= MaxImages
      ensures imagePreviewUrls == old(imagePreviewUrls)
    {
      if files.None? {
        return;
      }
      var newFiles := Slice(files.value, MaxImages - |selectedImages|);
      var validFiles := SelectValidFiles(newFiles);
      if |selectedImages| <= MaxImages {
        BudgetBoundsUpload(|selectedImages|, files.value);
      }
      selectedImages := selectedImages + validFiles;
    }

    /** removeImage: drops position index from the selection and from the previews. */
    method RemoveImage(index: int)
      modifies this
      ensures selectedImages == RemoveAt(old(selectedImages), index)
      ensures imagePreviewUrls == RemoveAt(old(imagePreviewUrls), index)
      ensures 0 <= index < |old(selectedImages)| ==>
        selectedImages == old(selectedImages)[..index] + old(selectedImages)[index + 1..]
    {
      RemoveAtSpec(selectedImages, index);
      selectedImages := RemoveAt(selectedImages, index);
      imagePreviewUrls := RemoveAt(imagePreviewUrls, index);
    }
  }
}
