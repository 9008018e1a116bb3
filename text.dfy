/** The slice of Python's string and `pathlib` behaviour the services rely on:
    `str.lower`, `str.replace`, `str.strip`, `str.join`, and the `name`,
    `suffix` and `stem` of a `PurePosixPath`. */
module Text {

  /** `str.lower` on one character, for the ASCII range (see README). */
  function LowerChar(c: char): char {
    if 'A' <= c <= 'Z' then (c as int + 32) as char else c
  }

  function Lower(s: string): (r: string)
    ensures |r| == |s|
    ensures forall i :: 0 <= i < |s| ==> r[i] == LowerChar(s[i])
  {
    seq(|s|, i requires 0 <= i < |s| => LowerChar(s[i]))
  }

  /** `s.replace(pat, rep)`: every non-overlapping occurrence, scanning left to right. */
  function ReplaceAll(s: string, pat: string, rep: string): string
    requires pat != []
    decreases |s|
  {
    if |s| < |pat| then s
    else if s[..|pat|] == pat then rep + ReplaceAll(s[|pat|..], pat, rep)
    else [s[0]] + ReplaceAll(s[1..], pat, rep)
  }

  /** Removing a pattern never lengthens a string. */
  lemma {:induction false} RemoveShortens(s: string, pat: string)
    requires pat != []
    ensures |ReplaceAll(s, pat, "")| <= |s|
    decreases |s|
  {
    if |s| >= |pat| {
      if s[..|pat|] == pat {
        RemoveShortens(s[|pat|..], pat);
      } else {
        RemoveShortens(s[1..], pat);
      }
    }
  }

  /** A string in which the pattern's first character never occurs is left alone. */
  lemma {:induction false} ReplaceAbsent(s: string, pat: string, rep: string)
    requires pat != []
    requires forall i :: 0 <= i < |s| ==> s[i] != pat[0]
    ensures ReplaceAll(s, pat, rep) == s
  {
    if |s| >= |pat| {
      assert s[..|pat|][0] == s[0];
      ReplaceAbsent(s[1..], pat, rep);
      assert [s[0]] + s[1..] == s;
    }
  }

  /** `s.replace(c, "")` for a single character distributes over concatenation. */
  lemma {:induction false} RemoveCharAppend(a: string, b: string, c: char)
    ensures ReplaceAll(a + b, [c], "") == ReplaceAll(a, [c], "") + ReplaceAll(b, [c], "")
    decreases |a|
  {
    if a == [] {
      assert a + b == b;
    } else {
      assert (a + b)[1..] == a[1..] + b;
      assert (a + b)[..1] == [a[0]] && a[..1] == [a[0]];
      RemoveCharAppend(a[1..], b, c);
    }
  }

  function StripLeft(s: string, cs: set<char>): (r: string)
    ensures |r| <= |s|
    decreases |s|
  {
    if |s| > 0 && s[0] in cs then StripLeft(s[1..], cs) else s
  }

  function StripRight(s: string, cs: set<char>): (r: string)
    ensures |r| <= |s|
    decreases |s|
  {
    if |s| > 0 && s[|s| - 1] in cs then StripRight(s[..|s| - 1], cs) else s
  }

  /** `s.strip(chars)`: drop leading and trailing characters drawn from `cs`. */
  function Strip(s: string, cs: set<char>): string {
    StripRight(StripLeft(s, cs), cs)
  }

  /** `sep.join(parts)`. */
  function Join(sep: string, parts: seq<string>): string
    decreases |parts|
  {
    if parts == [] then ""
    else if |parts| == 1 then parts[0]
    else parts[0] + sep + Join(sep, parts[1..])
  }

  function Concat(parts: seq<string>): string
    decreases |parts|
  {
    if parts == [] then "" else parts[0] + Concat(parts[1..])
  }

  /** Joining pieces that do not hold the separator and then removing every
      separator gives the pieces back, concatenated. */
  lemma {:induction false} RemoveSeparatorFromJoin(parts: seq<string>, c: char)
    requires forall k, i :: 0 <= k < |parts| && 0 <= i < |parts[k]| ==> parts[k][i] != c
    ensures ReplaceAll(Join([c], parts), [c], "") == Concat(parts)
    decreases |parts|
  {
    if parts == [] {
    } else if |parts| == 1 {
      ReplaceAbsent(parts[0], [c], "");
      assert Concat(parts[1..]) == "";
    } else {
      RemoveSeparatorFromJoin(parts[1..], c);
      ReplaceAbsent(parts[0], [c], "");
      RemoveCharAppend(parts[0] + [c], Join([c], parts[1..]), c);
      RemoveCharAppend(parts[0], [c], c);
      assert ReplaceAll([c], [c], "") == "";
    }
  }

  /** `s.split(sep)`: always at least one piece. */
  function Split(s: string, sep: char): (parts: seq<string>)
    ensures |parts| >= 1
    decreases |s|
  {
    if |s| == 0 then [""]
    else
      var rest := Split(s[1..], sep);
      if s[0] == sep then [""] + rest else [[s[0]] + rest[0]] + rest[1..]
  }

  /** A string without the separator is one piece. */
  lemma {:induction false} SplitWithout(s: string, sep: char)
    requires forall i :: 0 <= i < |s| ==> s[i] != sep
    ensures Split(s, sep) == [s]
    decreases |s|
  {
    if |s| > 0 {
      SplitWithout(s[1..], sep);
      assert [s[0]] + s[1..] == s;
    }
  }

  /** The last piece that is neither empty nor ".": how `PurePosixPath` parses
      a path into parts before taking its `name`. */
  function LastProperPart(parts: seq<string>): string
    decreases |parts|
  {
    if parts == [] then ""
    else if parts[|parts| - 1] == "" || parts[|parts| - 1] == "." then LastProperPart(parts[..|parts| - 1])
    else parts[|parts| - 1]
  }

  /** `PurePosixPath(p).name`. */
  function PathName(p: string): string {
    LastProperPart(Split(p, '/'))
  }

  /** `str.rfind(c)`: the last index holding `c`, or -1. */
  function RFind(s: string, c: char): (i: int)
    ensures -1 <= i < |s|
    ensures 0 <= i ==> s[i] == c
    ensures forall j :: i < j < |s| ==> s[j] != c
    decreases |s|
  {
    if |s| == 0 then -1
    else if s[|s| - 1] == c then |s| - 1
    else RFind(s[..|s| - 1], c)
  }

  /** Whether a name has a suffix: a dot that is neither its first nor its last character. */
  predicate HasSuffix(name: string) {
    0 < RFind(name, '.') < |name| - 1
  }

  /** `PurePosixPath(p).suffix`. */
  function Suffix(p: string): string {
    var name := PathName(p);
    if HasSuffix(name) then name[RFind(name, '.')..] else ""
  }

  /** `PurePosixPath(p).stem`. */
  function Stem(p: string): string {
    var name := PathName(p);
    if HasSuffix(name) then name[..RFind(name, '.')] else name
  }

  /** The stem and the suffix split the name: `stem + suffix == name`; the
      suffix is empty or starts with the name's last dot, and the part after
      that dot holds no further dot. */
  lemma StemSuffixSplit(p: string)
    ensures Stem(p) + Suffix(p) == PathName(p)
    ensures Suffix(p) == "" || (Suffix(p)[0] == '.' && forall j :: 1 <= j < |Suffix(p)| ==> Suffix(p)[j] != '.')
  {
    var name := PathName(p);
    if HasSuffix(name) {
      assert name[..RFind(name, '.')] + name[RFind(name, '.')..] == name;
    }
  }

  /** A plain file name `base + ext` (no slash anywhere, no dot in `base`,
      `ext` a dot followed by at least one non-dot character) has stem `base`
      and suffix `ext`. */
  lemma {:induction false} StemOfPlainName(base: string, ext: string)
    requires base != []
    requires forall i :: 0 <= i < |base| ==> base[i] != '.' && base[i] != '/'
    requires |ext| >= 2 && ext[0] == '.'
    requires forall i :: 1 <= i < |ext| ==> ext[i] != '.' && ext[i] != '/'
    ensures PathName(base + ext) == base + ext
    ensures Stem(base + ext) == base
    ensures Suffix(base + ext) == ext
  {
    var name := base + ext;
    SplitWithout(name, '/');
    assert Split(name, '/') == [name];
    assert name != "" && name != "." by {
      assert |name| >= 3;
    }
    assert PathName(name) == name;
    var i := RFind(name, '.');
    assert name[|base|] == '.';
    assert i == |base|;
    assert name[..i] == base;
    assert name[i..] == ext;
  }
}
