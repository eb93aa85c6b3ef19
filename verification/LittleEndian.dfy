/** Little-endian words: what StringReader::readLE and the sample readers compute. */
module LittleEndian {

  import opened Results

  type Byte = b: int | 0 <= b < 256

  function Pow256(w: nat): (p: nat)
    ensures p >= 1
  {
    if w == 0 then 1 else 256 * Pow256(w - 1)
  }

  const U32_LIMIT: nat := 0x1_0000_0000

  lemma Pow256Widths()
    ensures Pow256(1) == 256
    ensures Pow256(4) == U32_LIMIT
    ensures Pow256(8) == U32_LIMIT * U32_LIMIT
  {
    assert Pow256(2) == 65536;
    assert Pow256(4) == 256 * (256 * Pow256(2));
    assert Pow256(6) == 256 * (256 * Pow256(4));
    assert Pow256(8) == 256 * (256 * Pow256(6));
  }

  function ToLE(n: nat, w: nat): (s: seq<Byte>)
    ensures |s| == w
  {
    if w == 0 then [] else [n % 256] + ToLE(n / 256, w - 1)
  }

  function FromLE(s: seq<Byte>): nat {
    if s == [] then 0 else s[0] + 256 * FromLE(s[1..])
  }

  lemma {:induction false} FromToLE(n: nat, w: nat)
    requires n < Pow256(w)
    ensures FromLE(ToLE(n, w)) == n
  {
    if w > 0 {
      FromToLE(n / 256, w - 1);
      assert ToLE(n, w)[1..] == ToLE(n / 256, w - 1);
    }
  }

  lemma {:induction false} ToFromLE(s: seq<Byte>)
    ensures FromLE(s) < Pow256(|s|)
    ensures ToLE(FromLE(s), |s|) == s
  {
    if s != [] {
      ToFromLE(s[1..]);
      assert FromLE(s) / 256 == FromLE(s[1..]) && FromLE(s) % 256 == s[0];
      assert s == [s[0]] + s[1..];
    }
  }

  /** A word of w bytes at the front of a reader, and what is left of it. */
  function ReadLE(s: seq<Byte>, w: nat): (r: Result<(nat, seq<Byte>)>)
    ensures r.Ok? <==> |s| >= w
    ensures r.Ok? ==> |s| == w + |r.value.1|
  {
    if |s| < w then Err(Truncated) else Ok((FromLE(s[..w]), s[w..]))
  }

  /** Reading back a word that was just put in front of a stream. */
  lemma ReadWritten(n: nat, w: nat, rest: seq<Byte>)
    requires n < Pow256(w)
    ensures ReadLE(ToLE(n, w) + rest, w) == Ok((n, rest))
  {
    FromToLE(n, w);
    assert (ToLE(n, w) + rest)[..w] == ToLE(n, w);
    assert (ToLE(n, w) + rest)[w..] == rest;
  }

  /** An array of words of w bytes, as the memory behind it. */
  function Pack(ws: seq<nat>, w: nat): (s: seq<Byte>)
    ensures |s| == w * |ws|
  {
    if ws == [] then [] else ToLE(ws[0], w) + Pack(ws[1..], w)
  }

  lemma {:induction false} PackConcat(a: seq<nat>, b: seq<nat>, w: nat)
    ensures Pack(a + b, w) == Pack(a, w) + Pack(b, w)
  {
    if a == [] {
      assert a + b == b;
    } else {
      assert a + b == [a[0]] + (a[1..] + b);
      PackConcat(a[1..], b, w);
      calc {
        Pack(a + b, w);
        { assert (a + b)[1..] == a[1..] + b; }
        ToLE(a[0], w) + Pack(a[1..] + b, w);
        ToLE(a[0], w) + (Pack(a[1..], w) + Pack(b, w));
        Pack(a, w) + Pack(b, w);
      }
    }
  }

  /** Every element fits a word of w bytes. */
  ghost predicate Fit(ws: seq<nat>, w: nat) {
    forall i :: 0 <= i < |ws| ==> ws[i] < Pow256(w)
  }
}
