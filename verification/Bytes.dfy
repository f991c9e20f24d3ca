/** Byte sequences: the vocabulary in which both drivers are specified. */
module Bytes {

  type byte = bv8

  function Min(a: int, b: int): int {
    if a < b then a else b
  }

  function Max(a: int, b: int): int {
    if a < b then b else a
  }

  /** `s` with the bytes of `t` stored from position `at` on. */
  function Overwrite(s: seq<byte>, at: nat, t: seq<byte>): (r: seq<byte>)
    requires at + |t| <= |s|
    ensures |r| == |s|
  {
    s[..at] + t + s[at + |t|..]
  }

  lemma InitAndLast<T>(s: seq<T>)
    requires s != []
    ensures s[..|s| - 1] + [s[|s| - 1]] == s
  {
  }

  lemma OverwriteAll(s: seq<byte>, t: seq<byte>)
    requires |s| == |t|
    ensures Overwrite(s, 0, t) == t
  {
  }

  /** Two stores that follow each other are one store. */
  lemma OverwriteAppend(s: seq<byte>, at: nat, t: seq<byte>, u: seq<byte>)
    requires at + |t| + |u| <= |s|
    ensures Overwrite(Overwrite(s, at, t), at + |t|, u) == Overwrite(s, at, t + u)
  {
  }

  /** Names a position at which the quantifier in `Holds` is to be used. */
  predicate At(k: int) {
    true
  }

  /** `buf` is `before` with the stretch src[from..to] stored from position `at` on. */
  ghost predicate Holds(buf: seq<byte>, before: seq<byte>, at: nat, src: seq<byte>, from: nat, to: nat) {
    && from <= to <= |src| && at + to - from <= |before| == |buf|
    && forall k {:trigger At(k)} | 0 <= k < |buf| && At(k) ::
         buf[k] == if at <= k < at + to - from then src[from + k - at] else before[k]
  }

  lemma HoldsIsOverwrite(buf: seq<byte>, before: seq<byte>, at: nat, src: seq<byte>, from: nat, to: nat)
    requires Holds(buf, before, at, src, from, to)
    ensures buf == Overwrite(before, at, src[from..to])
  {
    forall k | 0 <= k < |buf|
      ensures buf[k] == Overwrite(before, at, src[from..to])[k]
    {
      assert At(k);
    }
  }

  /** Storing first `t`, then a stretch of another sequence behind it. */
  lemma HoldsThen(buf: seq<byte>, buf': seq<byte>, before: seq<byte>, at: nat, t: seq<byte>,
                  src: seq<byte>, from: nat, n: nat)
    requires if t == [] then buf == before else Holds(buf, before, at, t, 0, |t|)
    requires from + n <= |src| && Holds(buf', buf, at + |t|, src, from, from + n)
    ensures Holds(buf', before, at, t + src[from..from + n], 0, |t| + n)
  {
  }

  /** Copying a stretch in two pieces is copying it at once. */
  lemma HoldsMore(buf: seq<byte>, buf': seq<byte>, before: seq<byte>, at: nat,
                 src: seq<byte>, from: nat, to: nat, n: nat)
    requires Holds(buf, before, at, src, from, to)
    requires Holds(buf', buf, at + to - from, src, to, to + n)
    ensures Holds(buf', before, at, src, from, to + n)
  {
  }

  ghost predicate NulFree(s: seq<byte>) {
    forall i | 0 <= i < |s| :: s[i] != 0
  }

  /** The number of bytes before the first NUL, or all of them. */
  function UntilNul(s: seq<byte>): (k: nat)
    ensures k <= |s|
    ensures NulFree(s[..k])
    ensures k < |s| ==> s[k] == 0
  {
    if s == [] || s[0] == 0 then 0
    else
      var k := 1 + UntilNul(s[1..]);
      assert forall i | 0 < i < k :: s[i] == s[1..][..k - 1][i - 1];
      k
  }

  /** `UntilNul` is the only position with that description. */
  lemma UntilNulUnique(s: seq<byte>, k: nat)
    requires k <= |s| && NulFree(s[..k])
    requires k < |s| ==> s[k] == 0
    ensures UntilNul(s) == k
  {
    var u := UntilNul(s);
    assert forall i | 0 <= i < k :: s[..k][i] == s[i];
    assert forall i | 0 <= i < u :: s[..u][i] == s[i];
  }

  /** What is left of a stream once its NUL separators are removed. */
  function NonNul(s: seq<byte>): seq<byte> {
    if s == [] then []
    else NonNul(s[..|s| - 1]) + if s[|s| - 1] == 0 then [] else [s[|s| - 1]]
  }

  lemma NonNulOfNul(s: seq<byte>)
    ensures NonNul(s + [0]) == NonNul(s)
  {
    assert (s + [0])[..|s|] == s;
  }

  lemma NonNulOfByte(s: seq<byte>, b: byte)
    requires b != 0
    ensures NonNul(s + [b]) == NonNul(s) + [b]
  {
    assert (s + [b])[..|s|] == s;
  }

  lemma {:induction false} NonNulOfNulFree(s: seq<byte>, t: seq<byte>)
    requires NulFree(t)
    ensures NonNul(s + t) == NonNul(s) + t
  {
    if t == [] {
      assert s + t == s;
    } else {
      var init, last := t[..|t| - 1], t[|t| - 1];
      calc {
        NonNul(s + t);
      == { assert s + t == (s + init) + [last]; }
        NonNul((s + init) + [last]);
      == { NonNulOfByte(s + init, last); }
        NonNul(s + init) + [last];
      == { NonNulOfNulFree(s, init); }
        (NonNul(s) + init) + [last];
      == { assert t == init + [last]; }
        NonNul(s) + t;
      }
    }
  }
}
