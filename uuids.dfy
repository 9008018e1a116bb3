/** Item and file identifiers: a UUID as its 32 hexadecimal digits, its
    canonical text `str(uuid)`, and the parse `uuid.UUID(text)` the wardrobe
    service applies to the id in a request path. */
module Uuids {
  import opened Options
  import Text

  type Nibble = n: int | 0 <= n < 16

  /** The 128-bit value, most significant digit first. Two UUIDs are equal
      exactly when their digit sequences are. */
  type Uuid = s: seq<Nibble> | |s| == 32 witness seq(32, _ => 0)

  /** Lower-case hex digit, as `str(uuid)` prints it. */
  function HexChar(n: Nibble): char {
    "0123456789abcdef"[n]
  }

  /** The value of a hex digit in either case, as `int(text, 16)` reads it. */
  function HexValue(c: char): Option<Nibble> {
    if '0' <= c <= '9' then Some(c as int - '0' as int)
    else if 'a' <= c <= 'f' then Some(c as int - 'a' as int + 10)
    else if 'A' <= c <= 'F' then Some(c as int - 'A' as int + 10)
    else None
  }

  lemma HexValueOfHexChar(n: Nibble)
    ensures HexValue(HexChar(n)) == Some(n)
  {
  }

  function HexDigits(s: seq<Nibble>): (r: string)
    ensures |r| == |s|
    ensures forall i :: 0 <= i < |s| ==> r[i] == HexChar(s[i])
  {
    seq(|s|, i requires 0 <= i < |s| => HexChar(s[i]))
  }

  /** The five hyphen-separated groups of `str(uuid)`: 8, 4, 4, 4 and 12 digits. */
  function Groups(u: Uuid): seq<string> {
    [HexDigits(u[..8]), HexDigits(u[8..12]), HexDigits(u[12..16]), HexDigits(u[16..20]), HexDigits(u[20..])]
  }

  /** `str(uuid)`: the groups in lower-case hex, joined by hyphens. */
  function Format(u: Uuid): string {
    Text.Join("-", Groups(u))
  }

  /** The digits of a candidate string, or None if one character is not a hex digit. */
  function DecodeHex(s: string): (r: Option<seq<Nibble>>)
    ensures r.Some? ==> |r.value| == |s|
    decreases |s|
  {
    if s == [] then Some([])
    else match (HexValue(s[0]), DecodeHex(s[1..]))
      case (Some(d), Some(rest)) => Some([d] + rest)
      case _ => None
  }

  /** `uuid.UUID(text)`: drop every "urn:" and then every "uuid:", strip
      surrounding braces, drop every hyphen; what is left must be exactly 32
      hex digits. None stands for the `ValueError` the source catches. Every
      step only removes characters, so a text shorter than 32 characters is
      never a UUID. */
  function Parse(text: string): (r: Option<Uuid>)
    ensures |text| < 32 ==> r.None?
  {
    Text.RemoveShortens(text, "urn:");
    Text.RemoveShortens(Text.ReplaceAll(text, "urn:", ""), "uuid:");
    var t := Text.ReplaceAll(Text.ReplaceAll(text, "urn:", ""), "uuid:", "");
    Text.RemoveShortens(Text.Strip(t, {'{', '}'}), "-");
    var digits := Text.ReplaceAll(Text.Strip(t, {'{', '}'}), "-", "");
    if |digits| != 32 then None
    else match DecodeHex(digits)
      case Some(ns) => Some(ns)
      case None => None
  }

  lemma {:induction false} DecodeHexDigits(s: seq<Nibble>)
    ensures DecodeHex(HexDigits(s)) == Some(s)
    decreases |s|
  {
    if s != [] {
      assert HexDigits(s)[1..] == HexDigits(s[1..]);
      DecodeHexDigits(s[1..]);
      HexValueOfHexChar(s[0]);
      assert [s[0]] + s[1..] == s;
    }
  }

  /** The canonical text is 36 characters long and holds only hex digits and
      hyphens: no 'u' (so neither prefix occurs in it), no brace (so there is
      nothing to strip), and no dot or slash (so it is a plain file stem). */
  lemma FormatShape(u: Uuid)
    ensures |Format(u)| == 36
    ensures forall i :: 0 <= i < |Format(u)| ==> Format(u)[i] in "0123456789abcdef-"
  {
    var g := Groups(u);
    assert g[4..] == [g[4]] && g[3..][1..] == g[4..] && g[2..][1..] == g[3..] && g[1..][1..] == g[2..];
    assert Text.Join("-", g[3..]) == g[3] + "-" + g[4];
    assert Text.Join("-", g[2..]) == g[2] + "-" + Text.Join("-", g[3..]);
    assert Text.Join("-", g[1..]) == g[1] + "-" + Text.Join("-", g[2..]);
    assert Format(u) == g[0] + "-" + g[1] + "-" + g[2] + "-" + g[3] + "-" + g[4];
  }

  /** Removing the hyphens of the canonical text leaves the 32 digits. */
  lemma DigitsOfFormat(u: Uuid)
    ensures Text.ReplaceAll(Format(u), "-", "") == HexDigits(u)
  {
    var g := Groups(u);
    Text.RemoveSeparatorFromJoin(g, '-');
    assert g[4..] == [g[4]] && g[3..][1..] == g[4..] && g[2..][1..] == g[3..] && g[1..][1..] == g[2..];
    assert Text.Concat(g[4..]) == g[4];
    assert Text.Concat(g[3..]) == g[3] + g[4];
    assert Text.Concat(g[2..]) == g[2] + g[3] + g[4];
    assert Text.Concat(g[1..]) == g[1] + g[2] + g[3] + g[4];
    assert Text.Concat(g) == g[0] + g[1] + g[2] + g[3] + g[4];
    assert Text.Concat(g) == HexDigits(u);
  }

  lemma {:induction false} StripLeftNoop(s: string, cs: set<char>)
    requires forall i :: 0 <= i < |s| ==> s[i] !in cs
    ensures Text.StripLeft(s, cs) == s && Text.StripRight(s, cs) == s
  {
  }

  /** Round trip: the id that `to_dict` prints parses back to the same UUID, so a
      client that echoes it in a request path addresses the same record. */
  lemma {:induction false} ParseFormat(u: Uuid)
    ensures Parse(Format(u)) == Some(u)
  {
    var f := Format(u);
    FormatShape(u);
    assert forall i :: 0 <= i < |f| ==> f[i] != 'u' && f[i] != '{' && f[i] != '}';
    Text.ReplaceAbsent(f, "urn:", "");
    Text.ReplaceAbsent(f, "uuid:", "");
    StripLeftNoop(f, {'{', '}'});
    DigitsOfFormat(u);
    DecodeHexDigits(u);
  }

  /** Distinct UUIDs print distinctly: `str` loses no information. */
  lemma FormatInjective(u: Uuid, v: Uuid)
    requires Format(u) == Format(v)
    ensures u == v
  {
    ParseFormat(u);
    ParseFormat(v);
  }
}
