/** The sprite catalogue of one character: SpriteLoader files every image of the character's
    folder under (body part, frame number) -> "file:" URL. */
module SpriteLoading {
  import opened Common

  /** One regular file met by the directory walk: its bare name and its absolute path. */
  datatype SpriteFile = SpriteFile(name: string, absolutePath: string)

  /** The extensions `isImageFile` accepts, compared after lower-casing. */
  const ImageExtensions: seq<string> := [".png", ".jpg", ".jpeg", ".gif"]

  /** `isImageFile`: the lower-cased name ends in one of the four image extensions. */
  predicate IsImageFile(fileName: string)
  {
    var lower := ToLower(fileName);
    EndsWith(lower, ".png") || EndsWith(lower, ".jpg") || EndsWith(lower, ".jpeg") || EndsWith(lower, ".gif")
  }

  /** Every image file name holds a '.', so that `extractFrameNumber` can cut its extension. */
  lemma ImageFileHasDot(fileName: string)
    ensures IsImageFile(fileName) ==> '.' in fileName
  {
    var lower := ToLower(fileName);
    if IsImageFile(fileName) {
      var k := if EndsWith(lower, ".png") || EndsWith(lower, ".jpg") || EndsWith(lower, ".gif") then |lower| - 4 else |lower| - 5;
      assert lower[k] == '.';
      assert fileName[k] == '.';
    }
  }

  /** Lower-casing twice is lower-casing once. */
  lemma ToLowerIdempotent(s: string)
    ensures ToLower(ToLower(s)) == ToLower(s)
  {
  }

  /** The extension test ignores the case of the name. */
  lemma ImageFileIgnoresCase(name: string)
    ensures IsImageFile(ToLower(name)) == IsImageFile(name)
  {
    ToLowerIdempotent(name);
  }

  /** Lower-casing a name keeps a suffix that is already lower case. */
  lemma LowerSuffixKept(stem: string, e: string)
    requires ToLower(e) == e
    ensures EndsWith(ToLower(stem + e), e)
  {
    var lower := ToLower(stem + e);
    forall i | 0 <= i < |e|
      ensures lower[|stem|..][i] == e[i]
    {
      assert (stem + e)[|stem| + i] == e[i];
      assert ToLower(e)[i] == ToLowerChar(e[i]);
    }
    assert |lower| - |e| == |stem|;
  }

  /** Every listed extension is accepted after any stem. */
  lemma ImageExtensionsAccepted(stem: string)
    ensures forall e | e in ImageExtensions :: IsImageFile(stem + e)
  {
    LowerSuffixKept(stem, ".png");
    LowerSuffixKept(stem, ".jpg");
    LowerSuffixKept(stem, ".jpeg");
    LowerSuffixKept(stem, ".gif");
  }

  /** Upper-case extensions are accepted; other extensions, and a bare extension word, are not. */
  lemma ImageFileExamples(stem: string)
    ensures IsImageFile(stem + ".PNG") && IsImageFile(stem + ".Gif")
    ensures !IsImageFile("notes.txt") && !IsImageFile("png")
  {
    assert ToLower(stem + ".PNG")[|stem|..] == ".png";
    assert ToLower(stem + ".Gif")[|stem|..] == ".gif";
    assert ToLower("notes.txt")[5..] == ".txt";
  }

  // ---------------------------------------------------------------- frame numbers

  predicate IsDigit(c: char)
  {
    '0' <= c <= '9'
  }

  predicate AllDigits(s: string)
  {
    forall i | 0 <= i < |s| :: IsDigit(s[i])
  }

  /** `Integer.parseInt` of a run of decimal digits (unbounded). */
  function ParseDigits(d: string): nat
    requires AllDigits(d)
  {
    if d == [] then 0 else ParseDigits(d[..|d| - 1]) * 10 + (d[|d| - 1] as int - '0' as int)
  }

  /** The longest run of digits of `s` that ends just before index `i`: the contents of the
      loop's StringBuilder after it has read `s[..i]`. */
  function DigitsEndingAt(s: string, i: nat): (t: string)
    requires i <= |s|
    ensures |t| <= i && AllDigits(t)
  {
    if i > 0 && IsDigit(s[i - 1]) then DigitsEndingAt(s, i - 1) + [s[i - 1]] else []
  }

  /** `DigitsEndingAt` is the maximal run of digits of `s` ending at `i`. */
  lemma {:induction false} DigitsEndingAtIsMaximal(s: string, i: nat)
    requires i <= |s|
    ensures var t := DigitsEndingAt(s, i);
            && t == s[i - |t|..i]
            && (|t| < i ==> !IsDigit(s[i - |t| - 1]))
  {
    if i > 0 && IsDigit(s[i - 1]) {
      DigitsEndingAtIsMaximal(s, i - 1);
    }
  }

  /** The values of the digit runs of `s[..i]` already closed by a following non-digit: the
      loop's list `numbers` after it has read `s[..i]`. */
  function ClosedRuns(s: string, i: nat): seq<nat>
    requires i <= |s|
  {
    if i == 0 then []
    else if IsDigit(s[i - 1]) || DigitsEndingAt(s, i - 1) == [] then ClosedRuns(s, i - 1)
    else ClosedRuns(s, i - 1) + [ParseDigits(DigitsEndingAt(s, i - 1))]
  }

  /** The values of all maximal digit runs of `s`, in order: `numbers` once the last run is added. */
  function DigitRuns(s: string): seq<nat>
  {
    var t := DigitsEndingAt(s, |s|);
    if t == [] then ClosedRuns(s, |s|) else ClosedRuns(s, |s|) + [ParseDigits(t)]
  }

  /** Reference definition read from the end of `s[..i]`: skip the trailing non-digits, then
      parse the run of digits before them. */
  function LastRunBefore(s: string, i: nat): Option<nat>
    requires i <= |s|
  {
    if i == 0 then None
    else if !IsDigit(s[i - 1]) then LastRunBefore(s, i - 1)
    else Some(ParseDigits(DigitsEndingAt(s, i)))
  }

  /** The value of the last maximal run of digits of `s`, if it has a digit. */
  function LastDigitRun(s: string): Option<nat>
  {
    LastRunBefore(s, |s|)
  }

  /** `s[i..j]` is the last maximal run of digits of `s[..n]`. */
  ghost predicate LastRunAt(s: string, n: int, i: int, j: int)
    requires 0 <= n <= |s|
  {
    && 0 <= i < j <= n
    && AllDigits(s[i..j])
    && (i == 0 || !IsDigit(s[i - 1]))
    && (forall k | j <= k < n :: !IsDigit(s[k]))
  }

  /** The last element of the loop's list is the reference value. */
  lemma {:induction false} ClosedRunsEndWithLastRun(s: string, i: nat)
    requires i <= |s|
    ensures var t := DigitsEndingAt(s, i);
            var runs := if t == [] then ClosedRuns(s, i) else ClosedRuns(s, i) + [ParseDigits(t)];
            && (runs == [] <==> LastRunBefore(s, i) == None)
            && (runs != [] ==> LastRunBefore(s, i) == Some(runs[|runs| - 1]))
  {
    if i > 0 && !IsDigit(s[i - 1]) {
      ClosedRunsEndWithLastRun(s, i - 1);
    }
  }

  lemma DigitRunsEndWithLastRun(s: string)
    ensures (DigitRuns(s) == []) == (LastDigitRun(s) == None)
    ensures DigitRuns(s) != [] ==> LastDigitRun(s) == Some(DigitRuns(s)[|DigitRuns(s)| - 1])
  {
    ClosedRunsEndWithLastRun(s, |s|);
  }

  /** `LastRunBefore` is absent exactly when `s[..n]` has no digit, and otherwise is the value of
      the last maximal run of digits of `s[..n]`. */
  lemma {:induction false} LastRunBeforeIsLastMaximalRun(s: string, n: nat)
    requires n <= |s|
    ensures LastRunBefore(s, n).None? <==> forall k | 0 <= k < n :: !IsDigit(s[k])
    ensures LastRunBefore(s, n).Some? ==>
              exists i, j :: LastRunAt(s, n, i, j) && LastRunBefore(s, n).value == ParseDigits(s[i..j])
  {
    if n == 0 {
    } else if !IsDigit(s[n - 1]) {
      LastRunBeforeIsLastMaximalRun(s, n - 1);
      if LastRunBefore(s, n - 1).Some? {
        var i, j :| LastRunAt(s, n - 1, i, j) && LastRunBefore(s, n - 1).value == ParseDigits(s[i..j]);
        assert LastRunAt(s, n, i, j);
      }
    } else {
      var t := DigitsEndingAt(s, n);
      DigitsEndingAtIsMaximal(s, n);
      assert LastRunAt(s, n, n - |t|, n);
    }
  }

  /** `LastDigitRun` is absent exactly when `s` has no digit, and otherwise is the value of the
      last maximal run of digits of `s`. */
  lemma LastDigitRunIsLastMaximalRun(s: string)
    ensures LastDigitRun(s).None? <==> forall k | 0 <= k < |s| :: !IsDigit(s[k])
    ensures LastDigitRun(s).Some? ==>
              exists i, j :: LastRunAt(s, |s|, i, j) && LastDigitRun(s).value == ParseDigits(s[i..j])
  {
    LastRunBeforeIsLastMaximalRun(s, |s|);
  }

  /** Index of the last '.' in `s`, or -1 (`lastIndexOf('.')`). */
  function LastDot(s: string): (i: int)
    ensures -1 <= i < |s|
    ensures i == -1 <==> '.' !in s
  {
    if s == [] then -1 else if s[|s| - 1] == '.' then |s| - 1 else LastDot(s[..|s| - 1])
  }

  /** `LastDot` finds the last '.' of `s`. */
  lemma {:induction false} LastDotIsLast(s: string)
    ensures LastDot(s) >= 0 ==> s[LastDot(s)] == '.'
    ensures forall k | LastDot(s) < k < |s| :: s[k] != '.'
  {
    if s != [] && s[|s| - 1] != '.' {
      LastDotIsLast(s[..|s| - 1]);
    }
  }

  /** The frame number of a file name: the last run of digits of the name without its extension. */
  function FrameNumber(fileName: string): Option<nat>
    requires '.' in fileName
  {
    LastDigitRun(fileName[..LastDot(fileName)])
  }

  /** Only the last run of digits counts, and the extension is cut first. */
  lemma FrameNumberExample()
    ensures FrameNumber("hair_mid_12_3.png") == Some(3)
  {
    var name := "hair_mid_12_3.png";
    var stem := "hair_mid_12_3";
    assert name[13] == '.' && name[..13] == stem;
    assert name[..17] == name && name[..16][..15] == name[..15] && name[..15][..14] == name[..14];
    assert LastDot(name[..14]) == 13;
    assert LastDot(name) == 13;
    assert stem[12] == '3' && stem[11] == '_';
    assert DigitsEndingAt(stem, 12) == [];
    assert DigitsEndingAt(stem, 13) == "3";
    assert ParseDigits("3") == 3;
  }

  /** `extractFrameNumber`: cuts the extension, collects every run of digits in a list while
      scanning the characters, and returns the last one. */
  method ExtractFrameNumber(fileName: string) returns (frame: Option<nat>)
    requires '.' in fileName
    ensures frame == FrameNumber(fileName)
  {
    var stem := fileName[..LastDot(fileName)];
    var numbers: seq<nat> := [];
    var current: string := [];
    var i := 0;
    while i < |stem|
      invariant 0 <= i <= |stem|
      invariant current == DigitsEndingAt(stem, i)
      invariant numbers == ClosedRuns(stem, i)
    {
      var c := stem[i];
      if IsDigit(c) {
        current := current + [c];
      } else if |current| > 0 {
        numbers := numbers + [ParseDigits(current)];
        current := [];
      }
      i := i + 1;
    }
    if |current| > 0 {
      numbers := numbers + [ParseDigits(current)];
    }
    DigitRunsEndWithLastRun(stem);
    frame := if numbers == [] then None else Some(numbers[|numbers| - 1]);
  }

  // ---------------------------------------------------------------- categorisation

  /** The first key of `keys`, in list order, that `fileName` contains. */
  function FirstContainedKey(fileName: string, keys: seq<string>): (r: Option<string>)
    ensures r.Some? ==> r.value in keys && Contains(fileName, r.value)
  {
    if keys == [] then None
    else if Contains(fileName, keys[0]) then Some(keys[0])
    else FirstContainedKey(fileName, keys[1..])
  }

  /** `FirstContainedKey` finds nothing exactly when no key is contained, and otherwise the
      contained key that comes first in the list. */
  lemma {:induction false} FirstContainedKeyIsFirst(fileName: string, keys: seq<string>)
    ensures var r := FirstContainedKey(fileName, keys);
            && (r.None? <==> forall k | 0 <= k < |keys| :: !Contains(fileName, keys[k]))
            && (r.Some? ==> exists k | 0 <= k < |keys| ::
                  keys[k] == r.value && Contains(fileName, keys[k]) && forall j | 0 <= j < k :: !Contains(fileName, keys[j]))
  {
    if keys != [] && !Contains(fileName, keys[0]) {
      FirstContainedKeyIsFirst(fileName, keys[1..]);
      assert forall k | 1 <= k < |keys| :: keys[k] == keys[1..][k - 1];
      var r := FirstContainedKey(fileName, keys[1..]);
      if r.Some? {
        var k :| 0 <= k < |keys[1..]| && keys[1..][k] == r.value && Contains(fileName, keys[1..][k])
                 && forall j | 0 <= j < k :: !Contains(fileName, keys[1..][j]);
        assert keys[k + 1] == r.value;
      }
    }
  }

  /** A key that is contained, after keys that are not, is the first contained key. */
  lemma {:induction false} FirstContainedKeyAt(fileName: string, keys: seq<string>, i: nat)
    requires i <= |keys|
    requires forall j | 0 <= j < i :: !Contains(fileName, keys[j])
    ensures i < |keys| && Contains(fileName, keys[i]) ==> FirstContainedKey(fileName, keys) == Some(keys[i])
    ensures i == |keys| ==> FirstContainedKey(fileName, keys) == None
  {
    if i > 0 {
      assert !Contains(fileName, keys[0]);
      assert forall j | 0 <= j < i - 1 :: keys[1..][j] == keys[j + 1];
      FirstContainedKeyAt(fileName, keys[1..], i - 1);
    }
  }

  /** A name that contains a key contains every prefix of it. */
  lemma {:induction false} ContainsPrefix(s: string, key: string, pre: string)
    requires pre <= key && Contains(s, key)
    ensures Contains(s, pre)
  {
    if key <= s {
      assert s[..|pre|] == key[..|pre|] == pre;
    } else {
      ContainsPrefix(s[1..], key, pre);
    }
  }

  /** A key listed after one of its own proper prefixes is never the first contained key: any
      name containing it contains the prefix too, which the scan meets first. */
  lemma {:induction false} ShadowedKeyNeverFirst(fileName: string, keys: seq<string>, j: nat, i: nat)
    requires j < i < |keys|
    requires keys[j] <= keys[i]
    requires forall k | 0 <= k < i :: keys[k] != keys[i]
    ensures FirstContainedKey(fileName, keys) != Some(keys[i])
  {
    if !Contains(fileName, keys[0]) {
      if j == 0 {
        if Contains(fileName, keys[i]) {
          ContainsPrefix(fileName, keys[i], keys[0]);
        }
      } else {
        assert forall k | 0 <= k < i - 1 :: keys[1..][k] == keys[k + 1];
        ShadowedKeyNeverFirst(fileName, keys[1..], j - 1, i - 1);
      }
    }
  }

  /** Where `categorizeImage` files an image name: under the part of the first contained key,
      at the name's frame number. None when no key matches, or when the first matching key's
      name has no digits (the scan stops at that key all the same). */
  function Placement(fileName: string): (r: Option<(string, nat)>)
    requires '.' in fileName
    ensures r.Some? ==> r.value.0 in BodyPartSet
  {
    match FirstContainedKey(fileName, BodyParts)
    case None => None
    case Some(part) =>
      match FrameNumber(fileName)
      case None => None
      case Some(n) => Some((part, n))
  }

  /** What the walk does with one file: only image files are categorised. */
  function Target(file: SpriteFile): (r: Option<(string, nat)>)
    ensures r.Some? ==> r.value.0 in BodyPartSet
  {
    if IsImageFile(file.name) then ImageFileHasDot(file.name); Placement(file.name) else None
  }

  /** "tool" precedes "tool_effect" and "head_gear" precedes "head_gear_back" in the key list,
      so no file is ever filed under "tool_effect" or "head_gear_back". */
  lemma ShadowedPartsNeverFiled(file: SpriteFile)
    ensures Target(file).Some? ==> Target(file).value.0 !in {"tool_effect", "head_gear_back"}
  {
    assert BodyParts[6] == "tool" && BodyParts[7] == "tool_effect";
    assert BodyParts[9] == "head_gear" && BodyParts[22] == "head_gear_back";
    ShadowedKeyNeverFirst(file.name, BodyParts, 6, 7);
    HeadGearBackListedOnce();
    ShadowedKeyNeverFirst(file.name, BodyParts, 9, 22);
  }

  /** "head_gear_back" does not occur before its place in the key list. */
  lemma HeadGearBackListedOnce()
    ensures forall k | 0 <= k < 22 :: BodyParts[k] != BodyParts[22]
  {
    assert forall k | 0 <= k < 11 :: BodyParts[k] != "head_gear_back";
    assert forall k | 11 <= k < 22 :: BodyParts[k] != "head_gear_back";
  }

  /** The stored path: "file:" followed by the absolute path with every '\' turned into '/'. */
  function FileUrl(absolutePath: string): (url: string)
    ensures |url| == |absolutePath| + 5 && url[..5] == "file:"
    ensures '\\' !in url
    ensures forall i | 0 <= i < |absolutePath| ::
              url[i + 5] == if absolutePath[i] == '\\' then '/' else absolutePath[i]
  {
    "file:" + seq(|absolutePath|, i requires 0 <= i < |absolutePath| =>
                    if absolutePath[i] == '\\' then '/' else absolutePath[i])
  }

  /** The table right after `loadCharacterSprites` has reset it: an empty frame map per part. */
  function EmptyCatalogue(): (c: map<string, map<int, string>>)
    ensures c.Keys == BodyPartSet
  {
    map p | p in BodyPartSet :: map[]
  }

  /** What the walk does with one file: where it is filed, if anywhere, and the URL stored. */
  datatype Filing = Filing(target: Option<(string, nat)>, url: string)

  /** A filing targets one of the body-part keys, if any. */
  predicate ValidFiling(f: Filing)
  {
    f.target.Some? ==> f.target.value.0 in BodyPartSet
  }

  function FilingOf(file: SpriteFile): Filing
  {
    Filing(Target(file), FileUrl(file.absolutePath))
  }

  /** The filing decisions of a walk that met `files` in this order. */
  function Filings(files: seq<SpriteFile>): (fs: seq<Filing>)
    ensures |fs| == |files|
    ensures forall i | 0 <= i < |files| :: fs[i] == FilingOf(files[i]) && ValidFiling(fs[i])
  {
    seq(|files|, i requires 0 <= i < |files| => FilingOf(files[i]))
  }

  /** The table after one more filing: a placed image is stored, replacing any earlier path at
      the same (part, frame). */
  function Store(c: map<string, map<int, string>>, f: Filing): (c': map<string, map<int, string>>)
    requires c.Keys == BodyPartSet && ValidFiling(f)
    ensures c'.Keys == BodyPartSet
  {
    match f.target
    case None => c
    case Some((part, n)) => c[part := c[part][n := f.url]]
  }

  /** The table after a sequence of filings, starting from the reset table. */
  function Stored(fs: seq<Filing>): (c: map<string, map<int, string>>)
    requires forall i | 0 <= i < |fs| :: ValidFiling(fs[i])
    ensures c.Keys == BodyPartSet
  {
    if fs == [] then EmptyCatalogue() else Store(Stored(fs[..|fs| - 1]), fs[|fs| - 1])
  }

  /** The catalogue built from a walk that met `files` in this order. */
  function Catalogue(files: seq<SpriteFile>): (c: map<string, map<int, string>>)
    ensures c.Keys == BodyPartSet
  {
    Stored(Filings(files))
  }

  /** One filing: the entry at (part, n) is the new URL if the file is placed there, and the
      previous entry otherwise. */
  lemma StoreEntry(c: map<string, map<int, string>>, f: Filing, part: string, n: int)
    requires c.Keys == BodyPartSet && ValidFiling(f) && part in BodyPartSet
    ensures n in Store(c, f)[part] <==> f.target == Some((part, n)) || n in c[part]
    ensures f.target == Some((part, n)) ==> Store(c, f)[part][n] == f.url
    ensures f.target != Some((part, n)) && n in c[part] ==> Store(c, f)[part][n] == c[part][n]
  {
  }

  /** Every targeted (part, n) holds an entry once its filing has been stored. */
  lemma {:induction false} StoredIfTargeted(fs: seq<Filing>, part: string, n: int, i: int)
    requires forall k | 0 <= k < |fs| :: ValidFiling(fs[k])
    requires part in BodyPartSet && 0 <= i < |fs| && fs[i].target == Some((part, n))
    ensures n in Stored(fs)[part]
  {
    var init := fs[..|fs| - 1];
    var last := |fs| - 1;
    StoreEntry(Stored(init), fs[last], part, n);
    if i < last {
      assert init[i] == fs[i];
      StoredIfTargeted(init, part, n, i);
    }
  }

  /** The reset table: an empty frame map put under each key in turn. */
  method EmptyFrameMaps(keys: seq<string>) returns (table: map<string, map<int, string>>)
    ensures table == map p | p in keys :: map[]
  {
    table := map[];
    var i := 0;
    while i < |keys|
      invariant 0 <= i <= |keys|
      invariant table == map p | p in keys[..i] :: map[]
    {
      table := table[keys[i] := map[]];
      i := i + 1;
    }
    assert keys[..i] == keys;
  }

  /** Visiting one more file applies its filing, if it is an image, to the table so far. */
  lemma StoredStep(files: seq<SpriteFile>, k: nat)
    requires k < |files|
    ensures Stored(Filings(files)[..k + 1]) ==
      if IsImageFile(files[k].name) then Store(Stored(Filings(files)[..k]), FilingOf(files[k]))
      else Stored(Filings(files)[..k])
  {
    assert Filings(files)[..k + 1][..k] == Filings(files)[..k];
  }

  /** The entry at (part, n), if any, is the URL of the LAST filing that targeted it; `i` is
      that filing's position. */
  lemma {:induction false} StoredLast(fs: seq<Filing>, part: string, n: int) returns (i: int)
    requires forall k | 0 <= k < |fs| :: ValidFiling(fs[k])
    requires part in BodyPartSet && n in Stored(fs)[part]
    ensures 0 <= i < |fs| && fs[i].target == Some((part, n)) && Stored(fs)[part][n] == fs[i].url
    ensures forall j | i < j < |fs| :: fs[j].target != Some((part, n))
  {
    var init := fs[..|fs| - 1];
    var last := |fs| - 1;
    var before := Stored(init);
    assert Stored(fs) == Store(before, fs[last]);
    StoreEntry(before, fs[last], part, n);
    if fs[last].target == Some((part, n)) {
      i := last;
    } else {
      assert n in before[part] && Stored(fs)[part][n] == before[part][n];
      i := StoredLast(init, part, n);
      LaterFilingsMiss(fs, init, i, Some((part, n)));
    }
  }

  /** If no filing after `i` in all but the last one targets `t`, and the last does not
      either, none after `i` does. */
  lemma LaterFilingsMiss(fs: seq<Filing>, init: seq<Filing>, i: int, t: Option<(string, nat)>)
    requires |fs| > 0 && init == fs[..|fs| - 1]
    requires 0 <= i < |init| && fs[|fs| - 1].target != t
    requires forall j | i < j < |init| :: init[j].target != t
    ensures fs[i] == init[i]
    ensures forall j | i < j < |fs| :: fs[j].target != t
  {
    assert forall j | i < j < |init| :: init[j] == fs[j];
  }

  /** A frame is catalogued for a part exactly when some file of the walk was placed there, and
      its path is the URL of the LAST such file. */
  lemma CatalogueEntry(files: seq<SpriteFile>, part: string, n: int)
    requires part in BodyPartSet
    ensures n in Catalogue(files)[part] <==> exists i | 0 <= i < |files| :: Target(files[i]) == Some((part, n))
    ensures n in Catalogue(files)[part] ==>
              exists i | 0 <= i < |files| ::
                && Target(files[i]) == Some((part, n))
                && Catalogue(files)[part][n] == FileUrl(files[i].absolutePath)
                && forall j | i < j < |files| :: Target(files[j]) != Some((part, n))
  {
    var fs := Filings(files);
    if n in Catalogue(files)[part] {
      var i := StoredLast(fs, part, n);
      assert Target(files[i]) == Some((part, n)) && Catalogue(files)[part][n] == FileUrl(files[i].absolutePath);
    }
    if exists i | 0 <= i < |files| :: Target(files[i]) == Some((part, n)) {
      var i :| 0 <= i < |files| && Target(files[i]) == Some((part, n));
      StoredIfTargeted(fs, part, n, i);
    }
  }

  // ---------------------------------------------------------------- the loader

  /** `s` lists elements of `t` in the order `t` has them. */
  ghost predicate Subsequence(s: seq<string>, t: seq<string>)
  {
    s == [] || (t != [] && ((s[0] == t[0] && Subsequence(s[1..], t[1..])) || Subsequence(s, t[1..])))
  }

  class SpriteLoader {
    /** body part -> frame number -> "file:" URL */
    var spritePaths: map<string, map<int, string>>

    constructor ()
      ensures spritePaths == map[]
    {
      spritePaths := map[];
    }

    /** Every body part has a frame table (true after any load). */
    predicate Loaded()
      reads this
    {
      BodyPartSet <= spritePaths.Keys
    }

    /** `loadCharacterSprites`, with the directory walk replaced by the files it meets, in order:
        the table is emptied, re-created with an empty frame map per part, and every image file
        is categorised. Nothing of a previous character survives. */
    method LoadCharacterSprites(files: seq<SpriteFile>)
      modifies this
      ensures spritePaths == Catalogue(files)
      ensures Loaded()
    {
      spritePaths := map[];
      spritePaths := EmptyFrameMaps(BodyParts);
      assert spritePaths == EmptyCatalogue();
      assert Filings(files)[..0] == [];
      var k := 0;
      while k < |files|
        invariant 0 <= k <= |files|
        invariant spritePaths == Stored(Filings(files)[..k])
      {
        StoredStep(files, k);
        if IsImageFile(files[k].name) {
          CategorizeImage(files[k]);
        }
        k := k + 1;
      }
      assert Filings(files)[..k] == Filings(files);
    }

    /** `categorizeImage`: scans the keys in order and files the image under the first one its
        name contains, if the name has a frame number; the scan stops at that key either way. */
    method CategorizeImage(file: SpriteFile)
      requires IsImageFile(file.name)
      requires spritePaths.Keys == BodyPartSet
      modifies this
      ensures spritePaths == Store(old(spritePaths), FilingOf(file))
    {
      var fileName := file.name;
      var i := 0;
      while i < |BodyParts|
        invariant 0 <= i <= |BodyParts|
        invariant forall j | 0 <= j < i :: !Contains(fileName, BodyParts[j])
        invariant spritePaths == old(spritePaths)
      {
        var bodyPart := BodyParts[i];
        if Contains(fileName, bodyPart) {
          FirstContainedKeyAt(fileName, BodyParts, i);
          ImageFileHasDot(fileName);
          var frameNumber := ExtractFrameNumber(fileName);
          if frameNumber.Some? {
            spritePaths := spritePaths[bodyPart := spritePaths[bodyPart][frameNumber.value := FileUrl(file.absolutePath)]];
          }
          return;
        }
        i := i + 1;
      }
      FirstContainedKeyAt(fileName, BodyParts, i);
    }

    /** `getSpritePath`: None (null) for an unknown part or a missing frame. */
    function GetSpritePath(bodyPart: string, frameIndex: int): (path: Option<string>)
      reads this
      ensures path.Some? <==> bodyPart in spritePaths && frameIndex in spritePaths[bodyPart]
      ensures path.Some? ==> path.value == spritePaths[bodyPart][frameIndex]
    {
      if bodyPart in spritePaths && frameIndex in spritePaths[bodyPart] then Some(spritePaths[bodyPart][frameIndex]) else None
    }

    /** `getAvailableFrames`: the frame numbers stored for a part, empty for an unknown part;
        exactly the frames `getSpritePath` has a path for. */
    function GetAvailableFrames(bodyPart: string): (frames: set<int>)
      reads this
      ensures forall n :: n in frames <==> GetSpritePath(bodyPart, n).Some?
      ensures frames != {} <==> HasSpritesForPart(bodyPart)
    {
      if bodyPart in spritePaths then spritePaths[bodyPart].Keys else {}
    }

    /** `hasSpritesForPart`: the part is known and has at least one frame. */
    predicate HasSpritesForPart(partName: string)
      reads this
    {
      partName in spritePaths && spritePaths[partName] != map[]
    }

    /** The loop of `hasBasicSprites` over `parts`: false at the first part without frames. */
    function AllHaveSprites(parts: seq<string>): (r: bool)
      reads this
      requires forall i | 0 <= i < |parts| :: parts[i] in spritePaths
      ensures r <==> forall i | 0 <= i < |parts| :: HasSpritesForPart(parts[i])
    {
      if parts == [] then true
      else if spritePaths[parts[0]] == map[] then false
      else
        var r := AllHaveSprites(parts[1..]);
        assert forall i | 1 <= i < |parts| :: parts[i] == parts[1..][i - 1];
        r
    }

    /** `hasBasicSprites`: each of the five essential parts has at least one frame. It needs a
        prior load, as the source reads the parts' tables without a null check. */
    function HasBasicSprites(): (r: bool)
      reads this
      requires Loaded()
      ensures r <==> forall p | p in EssentialParts :: HasSpritesForPart(p)
    {
      AllHaveSprites(EssentialParts)
    }

    /** The stream filter of `getAvailableBodyParts` over `parts`. */
    function PartsWithSprites(parts: seq<string>): (r: seq<string>)
      reads this
      ensures forall p :: p in r <==> p in parts && HasSpritesForPart(p)
      ensures Subsequence(r, parts)
    {
      if parts == [] then []
      else
        var rest := PartsWithSprites(parts[1..]);
        if HasSpritesForPart(parts[0]) then
          assert ([parts[0]] + rest)[1..] == rest;
          [parts[0]] + rest
        else rest
    }

    /** `getAvailableBodyParts`: the body parts, in declaration order, that have a sprite. */
    function GetAvailableBodyParts(): (r: seq<string>)
      reads this
      ensures forall p :: p in r <==> p in BodyParts && HasSpritesForPart(p)
      ensures Subsequence(r, BodyParts)
    {
      PartsWithSprites(BodyParts)
    }
  }

  /** A non-empty frame table has some frame. */
  lemma SomeFrame(m: map<int, string>) returns (n: int)
    requires m != map[]
    ensures n in m
  {
    if forall x :: x !in m {
      assert false;
    }
    n :| n in m;
  }

  /** The walk files `file` under `part`, with some frame number. */
  predicate FiledUnder(file: SpriteFile, part: string)
  {
    Target(file).Some? && Target(file).value.0 == part
  }

  /** A part has frames in the catalogue exactly when some file of the walk was filed under it. */
  lemma CataloguedPart(files: seq<SpriteFile>, part: string)
    requires part in BodyPartSet
    ensures Catalogue(files)[part] != map[] <==> exists i | 0 <= i < |files| :: FiledUnder(files[i], part)
  {
    if Catalogue(files)[part] != map[] {
      var n := SomeFrame(Catalogue(files)[part]);
      CatalogueEntry(files, part, n);
    }
    if exists i | 0 <= i < |files| :: FiledUnder(files[i], part) {
      var i :| 0 <= i < |files| && FiledUnder(files[i], part);
      CatalogueEntry(files, part, Target(files[i]).value.1);
    }
  }

  /** After a load, the essential-parts test holds exactly when each essential part received
      an image with a frame number from the walk. */
  lemma BasicSpritesAfterLoad(files: seq<SpriteFile>, loader: SpriteLoader)
    requires loader.spritePaths == Catalogue(files)
    ensures loader.Loaded()
    ensures loader.HasBasicSprites() <==>
              forall p | p in EssentialParts :: exists i | 0 <= i < |files| :: FiledUnder(files[i], p)
  {
    forall p | p in EssentialParts
      ensures loader.HasSpritesForPart(p) <==> exists i | 0 <= i < |files| :: FiledUnder(files[i], p)
    {
      CataloguedPart(files, p);
    }
  }

  /** Whatever the walk meets, the catalogue holds no frame for "tool_effect" or "head_gear_back". */
  lemma ShadowedPartsStayEmpty(files: seq<SpriteFile>)
    ensures Catalogue(files)["tool_effect"] == map[]
    ensures Catalogue(files)["head_gear_back"] == map[]
  {
    forall i | 0 <= i < |files|
      ensures !FiledUnder(files[i], "tool_effect") && !FiledUnder(files[i], "head_gear_back")
    {
      ShadowedPartsNeverFiled(files[i]);
    }
    CataloguedPart(files, "tool_effect");
    CataloguedPart(files, "head_gear_back");
  }
}
