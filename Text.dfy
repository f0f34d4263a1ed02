/** String and byte helpers that the JavaScript runtime provides to the
    application: ASCII `toLowerCase`, `includes`, hex encoding through
    `Buffer`, and `String.prototype.split` with a one-character separator. */
module Text {

  import opened Wrappers

  /** A byte, as held in a Node.js `Buffer`. */
  type Byte = b: int | 0 <= b < 256

  // ---------------------------------------------------------------------
  // Lower-casing (ASCII only) and substring search

  function LowerChar(c: char): (r: char)
    ensures 'A' <= c <= 'Z' ==> r as int == c as int + 32
    ensures !('A' <= c <= 'Z') ==> r == c
    ensures !('A' <= r <= 'Z')
  {
    if 'A' <= c <= 'Z' then (c as int + 32) as char else c
  }

  /** `s.toLowerCase()` restricted to ASCII letters. */
  function Lower(s: string): (r: string)
    ensures |r| == |s|
    ensures forall i :: 0 <= i < |s| ==> r[i] == LowerChar(s[i])
  {
    seq(|s|, i requires 0 <= i < |s| => LowerChar(s[i]))
  }

  lemma LowerIdempotent(s: string)
    ensures Lower(Lower(s)) == Lower(s)
  {
  }

  /** `p` occurs at the start of `t`. */
  predicate IsPrefix(p: string, t: string) {
    |p| <= |t| && t[..|p|] == p
  }

  /** `t.includes(p)`: `p` occurs somewhere in `t`. */
  predicate Contains(t: string, p: string)
    decreases |t|
  {
    IsPrefix(p, t) || (|t| > 0 && Contains(t[1..], p))
  }

  /** `Contains` agrees with the existence of an occurrence position. */
  lemma {:induction false} ContainsAt(t: string, p: string, k: nat)
    requires k + |p| <= |t| && t[k..k + |p|] == p
    ensures Contains(t, p)
    decreases k
  {
    if k > 0 {
      assert t[1..][k - 1..k - 1 + |p|] == p;
      ContainsAt(t[1..], p, k - 1);
    }
  }

  /** Every string includes the empty string. */
  lemma ContainsEmpty(t: string)
    ensures Contains(t, "")
  {
  }

  /** A string includes each of its infixes. */
  lemma InfixContained(a: string, b: string, c: string)
    ensures Contains(a + b + c, b)
  {
    var t := a + b + c;
    assert t[|a|..|a| + |b|] == b;
    ContainsAt(t, b, |a|);
  }

  // ---------------------------------------------------------------------
  // Hex encoding, as `buf.toString("hex")` and `Buffer.from(s, "hex")`

  const HexDigits: string := "0123456789abcdef"

  predicate IsHexDigit(c: char) {
    c in HexDigits
  }

  /** The value of one hex digit; `Buffer.from` accepts both cases. */
  function HexValue(c: char): (r: Option<nat>)
    ensures r.Some? ==> r.value < 16
    ensures forall d :: 0 <= d < 16 ==> (c == HexDigits[d] ==> r == Some(d))
  {
    if '0' <= c <= '9' then Some(c as int - '0' as int)
    else if 'a' <= c <= 'f' then Some(c as int - 'a' as int + 10)
    else if 'A' <= c <= 'F' then Some(c as int - 'A' as int + 10)
    else None
  }

  /** Lower-case hex, two digits per byte, high nibble first. */
  function HexEncode(bs: seq<Byte>): (r: string)
    ensures |r| == 2 * |bs|
    ensures forall i :: 0 <= i < |r| ==> IsHexDigit(r[i])
  {
    if bs == [] then ""
    else [HexDigits[bs[0] / 16], HexDigits[bs[0] % 16]] + HexEncode(bs[1..])
  }

  /** Node's lenient hex decoding: pairs of hex digits are decoded up to the
      first pair that is not one; an odd trailing digit is dropped. */
  function HexDecode(s: string): (r: seq<Byte>)
    ensures 2 * |r| <= |s|
  {
    if |s| < 2 then []
    else match (HexValue(s[0]), HexValue(s[1]))
      case (Some(h), Some(l)) => [h * 16 + l] + HexDecode(s[2..])
      case _ => []
  }

  /** Decoding undoes encoding. */
  lemma {:induction false} HexRoundTrip(bs: seq<Byte>)
    ensures HexDecode(HexEncode(bs)) == bs
  {
    if bs != [] {
      var s := HexEncode(bs);
      assert s[2..] == HexEncode(bs[1..]);
      assert HexValue(s[0]) == Some(bs[0] / 16);
      assert HexValue(s[1]) == Some(bs[0] % 16);
      HexRoundTrip(bs[1..]);
    }
  }

  // ---------------------------------------------------------------------
  // `s.split(sep)` for a one-character separator

  /** The pieces of `s` between occurrences of `sep`; never empty, and
      `"".split(sep)` is `[""]`. */
  function Split(s: string, sep: char): (r: seq<string>)
    ensures |r| >= 1
    ensures forall i :: 0 <= i < |r| ==> sep !in r[i]
    decreases |s|
  {
    if s == [] then [""]
    else
      var rest := Split(s[1..], sep);
      if s[0] == sep then [""] + rest
      else [[s[0]] + rest[0]] + rest[1..]
  }

  /** A string without the separator is one piece. */
  lemma {:induction false} SplitWithoutSeparator(s: string, sep: char)
    requires sep !in s
    ensures Split(s, sep) == [s]
    decreases |s|
  {
    if s != [] {
      SplitWithoutSeparator(s[1..], sep);
      assert [s[0]] + s[1..] == s;
    }
  }

  /** `split` yields several pieces exactly when the separator occurs. */
  lemma {:induction false} SplitPieces(s: string, sep: char)
    ensures |Split(s, sep)| == 1 <==> sep !in s
    decreases |s|
  {
    if s != [] {
      SplitPieces(s[1..], sep);
      assert sep in s <==> s[0] == sep || sep in s[1..];
    }
  }

  /** Joining two separator-free strings with the separator and splitting
      the result gives the two strings back. */
  lemma {:induction false} SplitJoin(a: string, b: string, sep: char)
    requires sep !in a && sep !in b
    ensures Split(a + [sep] + b, sep) == [a, b]
    decreases |a|
  {
    if a == [] {
      assert a + [sep] + b == [sep] + b;
      assert ([sep] + b)[1..] == b;
      SplitWithoutSeparator(b, sep);
    } else {
      assert (a + [sep] + b)[1..] == a[1..] + [sep] + b;
      SplitJoin(a[1..], b, sep);
      assert [a[0]] + a[1..] == a;
    }
  }
}
