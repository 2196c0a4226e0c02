/** File-name rules of the flare spectrogram tools (eovsapy/flare_spec.py):
    `sanitize_filename`, the flare ID taken from a peak-time string, the
    default FITS and plot names built from it, and the image-extension
    defaulting of `make_plot`. All of them are pure string functions. */
module FileNames {
  import opened Common
  import Numerics

  /** The characters `sanitize_filename` replaces one for one:  < > : " / \ | ? *  */
  predicate IsReserved(c: char) {
    c == '<' || c == '>' || c == ':' || c == '"' || c == '/' || c == '\\' || c == '|' || c == '?' || c == '*'
  }

  /** Python's notion of whitespace (`str.isspace`): what `\s` matches in a
      str pattern and what `str.strip` removes. */
  predicate IsSpace(c: char) {
    var n := c as int;
    (9 <= n <= 13) || (0x1C <= n <= 0x20) || n == 0x85 || n == 0xA0 || n == 0x1680
    || (0x2000 <= n <= 0x200A) || n == 0x2028 || n == 0x2029 || n == 0x202F
    || n == 0x205F || n == 0x3000
  }

  predicate NoSpace(s: string) {
    forall i :: 0 <= i < |s| ==> !IsSpace(s[i])
  }

  /** A name `sanitize_filename` leaves alone: no reserved character, no whitespace. */
  predicate Clean(s: string) {
    forall i :: 0 <= i < |s| ==> !IsReserved(s[i]) && !IsSpace(s[i])
  }

  /** A boundary between a and b that does not cut a whitespace run in two. */
  predicate RunBoundary(a: string, b: string) {
    a == [] || b == [] || !IsSpace(a[|a| - 1]) || !IsSpace(b[0])
  }

  // ---------------------------------------------------------------- sanitize

  /** `re.sub(r'[<>:"/\\|?*]', '_', name)` */
  function ReplaceReserved(s: string): (r: string)
    ensures |r| == |s|
  {
    if s == [] then [] else [if IsReserved(s[0]) then '_' else s[0]] + ReplaceReserved(s[1..])
  }

  /** The whitespace run at the front of s removed. */
  function DropSpaces(s: string): (r: string)
    ensures |r| <= |s| && r == s[|s| - |r|..]
    ensures r == [] || !IsSpace(r[0])
    ensures forall i :: 0 <= i < |s| - |r| ==> IsSpace(s[i])
  {
    if s != [] && IsSpace(s[0]) then DropSpaces(s[1..]) else s
  }

  /** `re.sub(r'\s+', '_', name)`: every maximal whitespace run becomes one '_'. */
  function CollapseSpaces(s: string): string
    decreases |s|
  {
    if s == [] then []
    else if IsSpace(s[0]) then "_" + CollapseSpaces(DropSpaces(s))
    else [s[0]] + CollapseSpaces(s[1..])
  }

  /** The trailing whitespace of s removed. */
  function DropTrailingSpaces(s: string): string {
    if s != [] && IsSpace(s[|s| - 1]) then DropTrailingSpaces(s[..|s| - 1]) else s
  }

  /** `str.strip()` */
  function Strip(s: string): string {
    DropTrailingSpaces(DropSpaces(s))
  }

  /** `sanitize_filename(name)`. The result contains no reserved character
      and no whitespace, so the final `strip()` never removes anything. */
  function Sanitize(name: string): (r: string)
    ensures Clean(r)
    ensures r == CollapseSpaces(ReplaceReserved(name))
  {
    CollapsedClean(name);
    Strip(CollapseSpaces(ReplaceReserved(name)))
  }

  lemma {:induction false} ReplaceReservedAppend(a: string, b: string)
    ensures ReplaceReserved(a + b) == ReplaceReserved(a) + ReplaceReserved(b)
  {
    if a == [] {
      assert a + b == b;
    } else {
      assert (a + b)[0] == a[0] && (a + b)[1..] == a[1..] + b;
      ReplaceReservedAppend(a[1..], b);
    }
  }

  lemma {:induction false} ReplaceReservedAt(s: string, i: int)
    requires 0 <= i < |s|
    ensures ReplaceReserved(s)[i] == if IsReserved(s[i]) then '_' else s[i]
  {
    if i > 0 {
      ReplaceReservedAt(s[1..], i - 1);
    }
  }

  /** On a clean name the reserved-character pass is the identity. */
  lemma {:induction false} ReplaceReservedClean(s: string)
    requires Clean(s)
    ensures ReplaceReserved(s) == s
  {
    if s != [] {
      ReplaceReservedClean(s[1..]);
    }
  }

  /** Whitespace collapsing leaves a string without whitespace unchanged. */
  lemma {:induction false} CollapseNoSpace(s: string)
    requires NoSpace(s)
    ensures CollapseSpaces(s) == s
    decreases |s|
  {
    if s != [] {
      CollapseNoSpace(s[1..]);
    }
  }

  /** Every character of the collapsed string is '_' or a non-whitespace
      character of the input; in particular it holds no whitespace. */
  lemma {:induction false} CollapseChars(s: string)
    ensures forall i :: 0 <= i < |CollapseSpaces(s)| ==>
      CollapseSpaces(s)[i] == '_' || (CollapseSpaces(s)[i] in s && !IsSpace(CollapseSpaces(s)[i]))
    decreases |s|
  {
    if s == [] {
    } else if IsSpace(s[0]) {
      var d := DropSpaces(s);
      CollapseChars(d);
      forall i | 0 <= i < |CollapseSpaces(d)| ensures CollapseSpaces(d)[i] == '_' || (CollapseSpaces(d)[i] in s && !IsSpace(CollapseSpaces(d)[i])) {
        if CollapseSpaces(d)[i] in d {
          var j :| 0 <= j < |d| && d[j] == CollapseSpaces(d)[i];
          assert s[|s| - |d| + j] == d[j];
        }
      }
    } else {
      CollapseChars(s[1..]);
      forall i | 0 <= i < |CollapseSpaces(s[1..])| ensures CollapseSpaces(s[1..])[i] == '_' || (CollapseSpaces(s[1..])[i] in s && !IsSpace(CollapseSpaces(s[1..])[i])) {
        if CollapseSpaces(s[1..])[i] in s[1..] {
          var j :| 0 <= j < |s[1..]| && s[1..][j] == CollapseSpaces(s[1..])[i];
          assert s[j + 1] == s[1..][j];
        }
      }
    }
  }

  lemma {:induction false} DropSpacesAllSpace(w: string, rest: string)
    requires forall i :: 0 <= i < |w| ==> IsSpace(w[i])
    requires rest == [] || !IsSpace(rest[0])
    ensures DropSpaces(w + rest) == rest
  {
    if w != [] {
      assert (w + rest)[1..] == w[1..] + rest;
      DropSpacesAllSpace(w[1..], rest);
    }
  }

  /** A maximal whitespace run becomes exactly one underscore. */
  lemma CollapseRun(w: string, rest: string)
    requires w != [] && forall i :: 0 <= i < |w| ==> IsSpace(w[i])
    requires rest == [] || !IsSpace(rest[0])
    ensures CollapseSpaces(w + rest) == "_" + CollapseSpaces(rest)
  {
    DropSpacesAllSpace(w, rest);
  }

  lemma {:induction false} DropSpacesAppend(a: string, b: string)
    requires DropSpaces(a) != []
    ensures DropSpaces(a + b) == DropSpaces(a) + b
  {
    if IsSpace(a[0]) {
      assert (a + b)[0] == a[0] && (a + b)[1..] == a[1..] + b;
      DropSpacesAppend(a[1..], b);
    }
  }

  /** Collapsing distributes over a concatenation that does not cut a
      whitespace run: runs on either side are collapsed independently and
      everything else is kept in order. */
  lemma {:induction false} CollapseAppend(a: string, b: string)
    requires RunBoundary(a, b)
    ensures CollapseSpaces(a + b) == CollapseSpaces(a) + CollapseSpaces(b)
    decreases |a|
  {
    if a == [] {
      assert a + b == b;
    } else if IsSpace(a[0]) {
      var d := DropSpaces(a);
      if d != [] {
        assert d[|d| - 1] == a[|a| - 1];
        CollapseAppend(d, b);
      }
      CollapseAppendStep(a, b);
    } else {
      var t := a[1..];
      if t != [] {
        assert t[|t| - 1] == a[|a| - 1];
      }
      CollapseAppend(t, b);
      CollapseAppendKeep(a, b);
    }
  }

  /** One step of CollapseAppend when a starts with a whitespace run. */
  lemma {:induction false} CollapseAppendStep(a: string, b: string)
    requires a != [] && IsSpace(a[0]) && RunBoundary(a, b)
    requires DropSpaces(a) != [] ==>
      CollapseSpaces(DropSpaces(a) + b) == CollapseSpaces(DropSpaces(a)) + CollapseSpaces(b)
    ensures CollapseSpaces(a + b) == CollapseSpaces(a) + CollapseSpaces(b)
  {
    var d := DropSpaces(a);
    var ab := a + b;
    assert ab[0] == a[0];
    var dab := DropSpaces(ab);
    if d == [] {
      DropSpacesAllSpace(a, b);
      CollapseAllSpaceStep(a, b, ab, dab);
    } else {
      DropSpacesAppend(a, b);
      CollapseKeptStep(a, b, d, ab, dab);
    }
  }

  lemma CollapseAllSpaceStep(a: string, b: string, ab: string, dab: string)
    requires a != [] && IsSpace(a[0]) && DropSpaces(a) == []
    requires ab == a + b && IsSpace(ab[0]) && dab == DropSpaces(ab) && dab == b
    ensures CollapseSpaces(ab) == CollapseSpaces(a) + CollapseSpaces(b)
  {
    CollapseLead(ab);
    CollapseLead(a);
  }

  lemma CollapseKeptStep(a: string, b: string, d: string, ab: string, dab: string)
    requires a != [] && IsSpace(a[0]) && d == DropSpaces(a)
    requires ab != [] && IsSpace(ab[0]) && dab == DropSpaces(ab) && dab == d + b
    requires CollapseSpaces(d + b) == CollapseSpaces(d) + CollapseSpaces(b)
    ensures CollapseSpaces(ab) == CollapseSpaces(a) + CollapseSpaces(b)
  {
    CollapseLead(ab);
    CollapseLead(a);
    PrefixAssoc("_", CollapseSpaces(ab), CollapseSpaces(a), CollapseSpaces(d + b), CollapseSpaces(d), CollapseSpaces(b));
  }

  /** A leading whitespace run contributes one '_'. */
  lemma CollapseLead(x: string)
    requires x != [] && IsSpace(x[0])
    ensures CollapseSpaces(x) == "_" + CollapseSpaces(DropSpaces(x))
  {
  }

  /** A leading kept character is copied. */
  lemma CollapseKept(x: string)
    requires x != [] && !IsSpace(x[0])
    ensures CollapseSpaces(x) == [x[0]] + CollapseSpaces(x[1..])
  {
  }

  lemma PrefixAssoc(p: string, u: string, v: string, w: string, x: string, y: string)
    requires u == p + w && v == p + x && w == x + y
    ensures u == v + y
  {
  }

  /** One step of CollapseAppend when a starts with a kept character. */
  lemma {:induction false} CollapseAppendKeep(a: string, b: string)
    requires a != [] && !IsSpace(a[0])
    requires CollapseSpaces(a[1..] + b) == CollapseSpaces(a[1..]) + CollapseSpaces(b)
    ensures CollapseSpaces(a + b) == CollapseSpaces(a) + CollapseSpaces(b)
  {
    var ab := a + b;
    assert ab[0] == a[0] && ab[1..] == a[1..] + b;
    CollapseKept(ab);
    CollapseKept(a);
    PrefixAssoc([a[0]], CollapseSpaces(ab), CollapseSpaces(a), CollapseSpaces(a[1..] + b), CollapseSpaces(a[1..]), CollapseSpaces(b));
  }

  lemma {:induction false} DropSpacesNoSpace(s: string)
    requires NoSpace(s)
    ensures DropSpaces(s) == s
  {
  }

  lemma {:induction false} DropTrailingNoSpace(s: string)
    requires NoSpace(s)
    ensures DropTrailingSpaces(s) == s
  {
  }

  /** After replacing and collapsing, no reserved character and no
      whitespace is left, so stripping is the identity. */
  lemma CollapsedClean(name: string)
    ensures Clean(CollapseSpaces(ReplaceReserved(name)))
    ensures Strip(CollapseSpaces(ReplaceReserved(name))) == CollapseSpaces(ReplaceReserved(name))
  {
    var r := ReplaceReserved(name);
    var c := CollapseSpaces(r);
    CollapseChars(r);
    assert NoSpace(c);
    DropSpacesNoSpace(c);
    DropTrailingNoSpace(c);
    forall i | 0 <= i < |c| ensures !IsReserved(c[i]) {
      if c[i] != '_' {
        var j :| 0 <= j < |r| && r[j] == c[i];
        ReplaceReservedAt(name, j);
      }
    }
  }

  /** A clean name is its own sanitized form. */
  lemma SanitizeFixesClean(name: string)
    requires Clean(name)
    ensures Sanitize(name) == name
  {
    ReplaceReservedClean(name);
    CollapseNoSpace(name);
    DropSpacesNoSpace(name);
    DropTrailingNoSpace(name);
  }

  /** Sanitizing twice is sanitizing once. */
  lemma SanitizeIdempotent(name: string)
    ensures Sanitize(Sanitize(name)) == Sanitize(name)
  {
    SanitizeFixesClean(Sanitize(name));
  }

  /** Character by character: a reserved character or a whitespace character
      alone becomes one '_'; any other character is kept. */
  lemma SanitizeChar(c: char)
    ensures Sanitize([c]) == if IsReserved(c) || IsSpace(c) then "_" else [c]
  {
    var r := ReplaceReserved([c]);
    assert r == [if IsReserved(c) then '_' else c];
    assert r[1..] == [];
    if IsSpace(c) {
      assert DropSpaces(r) == [];
      assert CollapseSpaces(r) == "_" + CollapseSpaces([]);
    } else {
      assert CollapseSpaces(r) == [r[0]] + CollapseSpaces([]);
    }
  }

  /** A whole whitespace run becomes one '_' (runs are collapsed, reserved
      characters are not: "::" gives "__"). */
  lemma SanitizeRun(w: string)
    requires w != [] && forall i :: 0 <= i < |w| ==> IsSpace(w[i])
    ensures Sanitize(w) == "_"
  {
    var r := ReplaceReserved(w);
    forall i | 0 <= i < |r| ensures IsSpace(r[i]) {
      ReplaceReservedAt(w, i);
    }
    CollapseRun(r, []);
    assert r + [] == r;
  }

  /** Sanitizing distributes over any split that does not cut a whitespace
      run; with SanitizeChar and SanitizeRun this fixes Sanitize on every input. */
  lemma SanitizeAppend(a: string, b: string)
    requires RunBoundary(a, b)
    ensures Sanitize(a + b) == Sanitize(a) + Sanitize(b)
  {
    ReplaceReservedAppend(a, b);
    var ra, rb := ReplaceReserved(a), ReplaceReserved(b);
    if a != [] && b != [] {
      ReplaceReservedAt(a, |a| - 1);
      ReplaceReservedAt(b, 0);
    }
    CollapseAppend(ra, rb);
  }

  // ---------------------------------------------------------------- flare id

  /** `s.replace(c, '')` */
  function Delete(s: string, c: char): (r: string)
    ensures |r| <= |s|
  {
    if s == [] then [] else (if s[0] == c then [] else [s[0]]) + Delete(s[1..], c)
  }

  predicate IsSeparator(c: char) {
    c == '-' || c == ' ' || c == ':'
  }

  /** `tpk.replace('-','').replace(' ','').replace(':','')` */
  function FlareId(tpk: string): string {
    Delete(Delete(Delete(tpk, '-'), ' '), ':')
  }

  lemma {:induction false} DeleteAppend(a: string, b: string, c: char)
    ensures Delete(a + b, c) == Delete(a, c) + Delete(b, c)
  {
    if a == [] {
      assert a + b == b;
    } else {
      assert (a + b)[0] == a[0] && (a + b)[1..] == a[1..] + b;
      DeleteAppend(a[1..], b, c);
    }
  }

  lemma {:induction false} DeleteChars(s: string, c: char)
    ensures forall i :: 0 <= i < |Delete(s, c)| ==> Delete(s, c)[i] != c && Delete(s, c)[i] in s
  {
    if s != [] {
      DeleteChars(s[1..], c);
    }
  }

  lemma {:induction false} DeleteAbsent(s: string, c: char)
    requires forall i :: 0 <= i < |s| ==> s[i] != c
    ensures Delete(s, c) == s
  {
    if s != [] {
      DeleteAbsent(s[1..], c);
    }
  }

  /** The flare ID of a concatenation is the concatenation of the flare IDs:
      separators are deleted wherever they stand, other characters keep their order. */
  lemma FlareIdAppend(a: string, b: string)
    ensures FlareId(a + b) == FlareId(a) + FlareId(b)
  {
    DeleteAppend(a, b, '-');
    DeleteAppend(Delete(a, '-'), Delete(b, '-'), ' ');
    DeleteAppend(Delete(Delete(a, '-'), ' '), Delete(Delete(b, '-'), ' '), ':');
  }

  /** One character: a separator ('-', ' ' or ':') vanishes, anything else stays. */
  lemma FlareIdChar(c: char)
    ensures FlareId([c]) == if IsSeparator(c) then [] else [c]
  {
  }

  /** The flare ID holds no separator and only characters of the peak time;
      a peak time without separators is its own flare ID. */
  lemma FlareIdNoSeparator(tpk: string)
    ensures forall i :: 0 <= i < |FlareId(tpk)| ==> !IsSeparator(FlareId(tpk)[i]) && FlareId(tpk)[i] in tpk
    ensures (forall i :: 0 <= i < |tpk| ==> !IsSeparator(tpk[i])) ==> FlareId(tpk) == tpk
  {
    var d1 := Delete(tpk, '-');
    var d2 := Delete(d1, ' ');
    DeleteChars(tpk, '-');
    DeleteChars(d1, ' ');
    DeleteChars(d2, ':');
    if forall i :: 0 <= i < |tpk| ==> !IsSeparator(tpk[i]) {
      DeleteAbsent(tpk, '-');
      DeleteAbsent(tpk, ' ');
      DeleteAbsent(tpk, ':');
    }
  }

  // ---------------------------------------------------------------- names

  const FitsPrefix: string := "eovsa.spec.flare_id_"

  /** The peak time used for the flare ID: the caller's `tpk`, or else the
      first 19 characters (`iso[:19]`) of the ISO form of the first time stamp. */
  function PeakTime(tpk: Option<string>, startIso: string): (r: string)
    ensures tpk.Some? ==> r == tpk.value
    ensures tpk.None? ==> |r| == (if |startIso| < 19 then |startIso| else 19) && r <= startIso
  {
    match tpk
    case Some(t) => t
    case None => Numerics.PySlice(startIso, 0, 19)
  }

  /** Default plot stem `eovsa.spec.flare_id_<ID>`. */
  function DefaultStem(flareId: string): string {
    FitsPrefix + flareId
  }

  /** FITS file name `eovsa.spec.flare_id_<ID>.fits` written by
      `spec_data_to_fits`: the flare ID can be read back from between the
      fixed prefix and the ".fits" suffix. */
  function FitsName(flareId: string): (r: string)
    ensures |r| == |FitsPrefix| + |flareId| + 5
    ensures r[..|FitsPrefix|] == FitsPrefix && r[|r| - 5..] == ".fits"
    ensures r[|FitsPrefix|..|r| - 5] == flareId
  {
    FitsPrefix + flareId + ".fits"
  }

  /** Different flares never share a FITS file. */
  lemma FitsNameInjective(a: string, b: string)
    requires FitsName(a) == FitsName(b)
    ensures a == b
  {
    var n := FitsName(a);
    assert a == n[|FitsPrefix|..|n| - 5];
  }

  function LowerChar(c: char): char {
    if 'A' <= c <= 'Z' then (c as int + 32) as char else c
  }

  /** `str.lower()`, on the ASCII letters. */
  function Lower(s: string): (r: string)
    ensures |r| == |s|
  {
    if s == [] then [] else [LowerChar(s[0])] + Lower(s[1..])
  }

  const AcceptedExtensions: seq<string> := [".png", ".jpg", ".jpeg", ".tif", ".tiff", ".pdf"]

  predicate EndsWith(s: string, suffix: string) {
    |suffix| <= |s| && s[|s| - |suffix|..] == suffix
  }

  /** `any(name.lower().endswith(ext) for ext in acceptable_extensions)` */
  predicate HasAcceptedExtension(name: string) {
    exists e :: e in AcceptedExtensions && EndsWith(Lower(name), e)
  }

  /** `.png` appended unless the name already has an accepted extension. */
  function WithImageExtension(name: string): string {
    if HasAcceptedExtension(name) then name else name + ".png"
  }

  lemma {:induction false} LowerAppend(a: string, b: string)
    ensures Lower(a + b) == Lower(a) + Lower(b)
  {
    if a == [] {
      assert a + b == b;
    } else {
      assert (a + b)[0] == a[0] && (a + b)[1..] == a[1..] + b;
      LowerAppend(a[1..], b);
    }
  }

  /** The result always carries an accepted extension; it is the name itself
      exactly when the name had one, and the name plus ".png" otherwise. */
  lemma WithImageExtensionAccepted(name: string)
    ensures HasAcceptedExtension(WithImageExtension(name))
    ensures WithImageExtension(name) == name <==> HasAcceptedExtension(name)
    ensures !HasAcceptedExtension(name) ==> WithImageExtension(name) == name + ".png"
  {
    if !HasAcceptedExtension(name) {
      LowerAppend(name, ".png");
      var l := Lower(name + ".png");
      assert Lower(".png") == ".png";
      assert l[|l| - 4..] == ".png";
      assert ".png" in AcceptedExtensions && EndsWith(l, ".png");
      assert |name + ".png"| != |name|;
    }
  }

  /** Applying the extension rule twice adds nothing. */
  lemma WithImageExtensionIdempotent(name: string)
    ensures WithImageExtension(WithImageExtension(name)) == WithImageExtension(name)
  {
    WithImageExtensionAccepted(name);
  }

  /** The image file name `make_plot` saves to: the caller's name, or the
      default stem when it is None or empty, sanitized, with the extension rule. */
  function PlotName(name: Option<string>, flareId: string): (r: string)
    ensures Clean(r) && HasAcceptedExtension(r)
  {
    var stem := if name.None? || name.value == "" then DefaultStem(flareId) else name.value;
    var s := Sanitize(stem);
    WithImageExtensionAccepted(s);
    PngClean();
    CleanAppend(s, ".png");
    WithImageExtension(s)
  }

  lemma CleanAppend(a: string, b: string)
    requires Clean(a) && Clean(b)
    ensures Clean(a + b)
  {
    forall i | 0 <= i < |a + b| ensures !IsReserved((a + b)[i]) && !IsSpace((a + b)[i]) {
      if i >= |a| {
        assert (a + b)[i] == b[i - |a|];
      }
    }
  }

  lemma PngClean()
    ensures Clean(".png")
  {
  }

  /** Without a caller-supplied name, and for a clean flare ID, the plot is
      saved under the FITS file's stem with ".png". */
  lemma DefaultPlotName(flareId: string)
    requires Clean(flareId) && !HasAcceptedExtension(DefaultStem(flareId))
    ensures PlotName(None, flareId) == DefaultStem(flareId) + ".png"
    ensures FitsName(flareId) == DefaultStem(flareId) + ".fits"
  {
    var stem := DefaultStem(flareId);
    assert Clean(FitsPrefix);
    CleanAppend(FitsPrefix, flareId);
    SanitizeFixesClean(stem);
    assert FitsName(flareId) == stem + ".fits";
  }
}
