/** Bytes, byte constants and the scanning vocabulary shared by every parser model. */
module Bytes {

  type byte = b: int | 0 <= b < 256

  datatype Option<+T> = None | Some(value: T)

  const HT: byte := 9
  const LF: byte := 10
  const CR: byte := 13
  const SP: byte := 32
  const COLON: byte := 58
  const ZERO: byte := 48
  const CRLF: seq<byte> := [CR, LF]
  const DCRLF: seq<byte> := [CR, LF, CR, LF]

  /** The bytes of a text of seven-bit characters. */
  function Ascii(s: string): (t: seq<byte>)
    requires forall i | 0 <= i < |s| :: s[i] as int < 128
    ensures |t| == |s| && forall i | 0 <= i < |s| :: t[i] == s[i] as int
  {
    seq(|s|, i requires 0 <= i < |s| => s[i] as int)
  }

  /** The named bytes are the characters they are named after. */
  lemma Spelled()
    ensures [HT, LF, CR, SP, COLON, ZERO] == Ascii("\t\n\r :0") && CRLF == Ascii("\r\n") && DCRLF == Ascii("\r\n\r\n")
  {
  }

  predicate IsDigit(b: byte) { 48 <= b <= 57 }

  predicate IsLf(b: byte) { b == LF }

  predicate NotCr(b: byte) { b != CR }

  predicate IsBlank(b: byte) { b == SP || b == HT }

  predicate NotBlank(b: byte) { !IsBlank(b) }

  /** `w` stands in `s` at offset `i`. */
  predicate At(s: seq<byte>, i: nat, w: seq<byte>) {
    i + |w| <= |s| && s[i..i + |w|] == w
  }

  predicate Every(p: byte -> bool, s: seq<byte>) { forall i | 0 <= i < |s| :: p(s[i]) }

  predicate Never(p: byte -> bool, s: seq<byte>) { forall i | 0 <= i < |s| :: !p(s[i]) }

  /** The first index at or after `i` whose byte satisfies `p`, or `|s|`. */
  function First(s: seq<byte>, i: nat, p: byte -> bool): (k: nat)
    requires i <= |s|
    ensures i <= k <= |s|
    ensures forall j | i <= j < k :: !p(s[j])
    ensures k < |s| ==> p(s[k])
    decreases |s| - i
  {
    if i == |s| || p(s[i]) then i else First(s, i + 1, p)
  }

  /** The least offset at or after `i` where `w` stands, as `string_view::find`. */
  function FindFrom(s: seq<byte>, w: seq<byte>, i: nat): (r: Option<nat>)
    requires i <= |s|
    ensures r.Some? ==> i <= r.value <= |s| - |w| && At(s, r.value, w) && forall j | i <= j < r.value :: !At(s, j, w)
    ensures r.None? ==> forall j | i <= j :: !At(s, j, w)
    decreases |s| - i
  {
    if At(s, i, w) then Some(i) else if i == |s| then None else FindFrom(s, w, i + 1)
  }

  function Repeat(b: byte, n: nat): (r: seq<byte>)
    ensures |r| == n && forall j | 0 <= j < n :: r[j] == b
  {
    seq(n, _ => b)
  }

  function Flatten<T>(ss: seq<seq<T>>): seq<T> {
    if ss == [] then [] else ss[0] + Flatten(ss[1..])
  }

  lemma {:induction false} FlattenConcat<T>(ss: seq<seq<T>>, tt: seq<seq<T>>)
    ensures Flatten(ss + tt) == Flatten(ss) + Flatten(tt)
    decreases |ss|
  {
    if ss == [] {
      assert ss + tt == tt;
    } else {
      FlattenConcat(ss[1..], tt);
      assert (ss + tt)[1..] == ss[1..] + tt;
    }
  }
}
