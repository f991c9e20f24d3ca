/** Lists of separately allocated pages, and the flat byte array they stand for. */
module Pages {
  import opened Bytes

  const PAGE_SIZE: nat := 4096

  ghost predicate Distinct(pages: seq<array<byte>>) {
    forall i, j | 0 <= i < j < |pages| :: pages[i] != pages[j]
  }

  ghost predicate PageList(pages: seq<array<byte>>) {
    && (forall i | 0 <= i < |pages| :: pages[i].Length == PAGE_SIZE)
    && Distinct(pages)
  }

  /** Names a byte of a page list at which the quantifier in `IsFlat` is to be used. */
  predicate PageAt(i: int, off: int) {
    true
  }

  /** `s` is the concatenation of the pages. */
  ghost predicate IsFlat(pages: seq<array<byte>>, s: seq<byte>)
    requires PageList(pages)
    reads pages
  {
    && |s| == |pages| * PAGE_SIZE
    && forall i, off {:trigger PageAt(i, off)} | 0 <= i < |pages| && 0 <= off < PAGE_SIZE && PageAt(i, off) ::
         s[i * PAGE_SIZE + off] == pages[i][off]
  }

  lemma FlatExists(pages: seq<array<byte>>)
    requires PageList(pages)
    ensures exists s :: IsFlat(pages, s)
  {
    var s := seq(|pages| * PAGE_SIZE, k requires 0 <= k < |pages| * PAGE_SIZE reads pages =>
      pages[k / PAGE_SIZE][k % PAGE_SIZE]);
    assert IsFlat(pages, s);
  }

  /** The concatenation of the pages. */
  ghost function Flat(pages: seq<array<byte>>): (s: seq<byte>)
    requires PageList(pages)
    reads pages
    ensures |s| == |pages| * PAGE_SIZE
  {
    FlatExists(pages);
    var s :| IsFlat(pages, s);
    s
  }

  /** Byte `off` of page `i`. */
  lemma FlatAt(pages: seq<array<byte>>, i: nat, off: nat)
    requires PageList(pages) && i < |pages| && off < PAGE_SIZE
    ensures i * PAGE_SIZE + off < |Flat(pages)|
    ensures Flat(pages)[i * PAGE_SIZE + off] == pages[i][off]
  {
    assert PageAt(i, off);
  }

  /** A stretch of one page is a stretch of the flat array. */
  lemma FlatOfPage(pages: seq<array<byte>>, i: nat, off: nat, n: nat)
    requires PageList(pages) && i < |pages| && off + n <= PAGE_SIZE
    ensures i * PAGE_SIZE + off + n <= |Flat(pages)|
    ensures pages[i][off..off + n] == Flat(pages)[i * PAGE_SIZE + off..i * PAGE_SIZE + off + n]
  {
    var at := i * PAGE_SIZE + off;
    assert at + n <= |Flat(pages)|;
    var piece, stretch := pages[i][off..off + n], Flat(pages)[at..at + n];
    forall k | 0 <= k < n
      ensures piece[k] == stretch[k]
    {
      FlatAt(pages, i, off + k);
    }
  }

  lemma FlatOfSuffix(pages: seq<array<byte>>, n: nat)
    requires PageList(pages) && n <= |pages|
    ensures PageList(pages[n..])
    ensures Flat(pages[n..]) == Flat(pages)[n * PAGE_SIZE..]
  {
    var rest := Flat(pages[n..]);
    forall k | 0 <= k < |rest|
      ensures rest[k] == Flat(pages)[n * PAGE_SIZE + k]
    {
      FlatAt(pages[n..], k / PAGE_SIZE, k % PAGE_SIZE);
      FlatAt(pages, n + k / PAGE_SIZE, k % PAGE_SIZE);
    }
  }

  lemma FlatOfAppend(pages: seq<array<byte>>, page: array<byte>)
    requires PageList(pages + [page])
    ensures PageList(pages)
    ensures Flat(pages + [page]) == Flat(pages) + page[..]
  {
    var all := pages + [page];
    assert forall i | 0 <= i < |pages| :: pages[i] == all[i];
    assert all[|pages|] == page;
    var flat, flat' := Flat(pages), Flat(all);
    assert |flat'| == |flat| + PAGE_SIZE && page.Length == PAGE_SIZE;
    forall k | 0 <= k < |flat'|
      ensures flat'[k] == (flat + page[..])[k]
    {
      FlatAt(all, k / PAGE_SIZE, k % PAGE_SIZE);
      if k < |flat| {
        FlatAt(pages, k / PAGE_SIZE, k % PAGE_SIZE);
      } else {
        assert k / PAGE_SIZE == |pages|;
      }
    }
  }

  lemma WholePagesLeft(size: nat, pages: nat)
    requires size % PAGE_SIZE == 0 && pages * PAGE_SIZE <= size
    ensures (size - pages * PAGE_SIZE) % PAGE_SIZE == 0
  {
    assert size - pages * PAGE_SIZE == (size / PAGE_SIZE - pages) * PAGE_SIZE;
  }

  /** Where byte `off` of page `i` lies. */
  lemma PagePosition(i: nat, off: nat)
    requires off < PAGE_SIZE
    ensures (i * PAGE_SIZE + off) / PAGE_SIZE == i
    ensures (i * PAGE_SIZE + off) % PAGE_SIZE == off
  {
  }

  /** An offset that moves on by at most a page. */
  lemma NextOffset(off: nat, n: nat)
    requires off < PAGE_SIZE && n <= PAGE_SIZE
    ensures (off + n) % PAGE_SIZE == if off + n < PAGE_SIZE then off + n else off + n - PAGE_SIZE
  {
  }

  /** How many of the `total` bytes from position `pos` on lie in the first `n` pages. */
  function Reach(pos: nat, total: nat, n: nat): nat {
    Max(0, Min(total, n * PAGE_SIZE - pos))
  }

  lemma ReachOfAll(pos: nat, total: nat, size: nat)
    requires size % PAGE_SIZE == 0
    ensures Reach(pos, total, size / PAGE_SIZE) == Max(0, Min(total, size - pos))
  {
    assert size / PAGE_SIZE * PAGE_SIZE == size;
  }

  /** A walk over the pages skips those before `pos`... */
  lemma ReachBefore(pos: nat, total: nat, i: nat)
    requires i < pos / PAGE_SIZE
    ensures Reach(pos, total, i) == Reach(pos, total, i + 1) == 0
  {
  }

  /** ... and on every other page transfers what is left, up to the end of the page. */
  lemma ReachStep(pos: nat, total: nat, i: nat)
    requires pos / PAGE_SIZE <= i
    ensures
      var r := Reach(pos, total, i);
      var n := Min(total - r, PAGE_SIZE - (pos + r) % PAGE_SIZE);
      && Reach(pos, total, i + 1) == r + n
      && (n > 0 ==> (pos + r) / PAGE_SIZE == i)
  {
    var r := Reach(pos, total, i);
    if r < total {
      assert pos + r == if pos / PAGE_SIZE == i then pos else i * PAGE_SIZE;
      assert (pos + r) / PAGE_SIZE == i;
    }
  }

  /** What an allocation loop that stops as soon as `need` bytes fit, or at the
      first refusal, may add to `have` bytes of pages. */
  ghost predicate Growth(have: nat, need: nat, grown: seq<byte>) {
    && |grown| % PAGE_SIZE == 0
    && (grown != [] ==> have + |grown| - PAGE_SIZE < need)
  }

  /** What such a loop adds when the allocator has `left` pages to give: what was asked
      for, or everything there was. */
  ghost predicate Allotted(have: nat, need: nat, left: nat, grown: seq<byte>) {
    && Growth(have, need, grown)
    && |grown| <= left * PAGE_SIZE
    && (have + |grown| < need ==> |grown| == left * PAGE_SIZE)
  }

  /** So whether it succeeds can be told beforehand. */
  lemma AllottedEnough(have: nat, need: nat, left: nat, grown: seq<byte>)
    requires Allotted(have, need, left, grown)
    ensures have + |grown| >= need <==> have + left * PAGE_SIZE >= need
  {
  }

  /** There is always such an outcome. */
  lemma SomeAllotment(have: nat, need: nat, left: nat) returns (grown: seq<byte>)
    requires have % PAGE_SIZE == 0
    ensures Allotted(have, need, left, grown)
  {
    var pages := if need <= have then 0 else Min(left, (need - have - 1) / PAGE_SIZE + 1);
    grown := seq(pages * PAGE_SIZE, _ => 0);
  }

  /** The page allocator: it has `left` pages to give, with unknown content, and refuses
      once they are gone. */
  class Allocator {
    var left: nat

    constructor (left: nat)
      ensures this.left == left
    {
      this.left := left;
    }

    method AllocPage() returns (page: array?<byte>)
      modifies this
      ensures page == null <==> old(left) == 0
      ensures page == null ==> left == 0
      ensures page != null ==> fresh(page) && page.Length == PAGE_SIZE && left == old(left) - 1
    {
      if left == 0 {
        page := null;
      } else {
        page := new byte[PAGE_SIZE];
        left := left - 1;
      }
    }
  }

  /** memcpy(dst + at, src + from, n) */
  method Memcpy(dst: array<byte>, at: nat, src: seq<byte>, from: nat, n: nat)
    requires from + n <= |src| && at + n <= dst.Length
    modifies dst
    ensures Holds(dst[..], old(dst[..]), at, src, from, from + n)
  {
    for i := 0 to n
      invariant forall j | 0 <= j < dst.Length ::
        dst[j] == if at <= j < at + i then src[from + j - at] else old(dst[j])
    {
      dst[at + i] := src[from + i];
    }
  }

  /** memcpy into one page of a list. */
  method MemcpyToPage(pages: seq<array<byte>>, i: nat, off: nat, src: seq<byte>, from: nat, n: nat)
    requires PageList(pages) && i < |pages|
    requires from + n <= |src| && off + n <= PAGE_SIZE
    modifies pages[i]
    ensures Holds(Flat(pages), old(Flat(pages)), i * PAGE_SIZE + off, src, from, from + n)
  {
    ghost var before := Flat(pages);
    forall j, k | 0 <= j < |pages| && 0 <= k < PAGE_SIZE
      ensures j * PAGE_SIZE + k < |before| && before[j * PAGE_SIZE + k] == pages[j][k]
    {
      FlatAt(pages, j, k);
    }
    Memcpy(pages[i], off, src, from, n);
    assert forall k | 0 <= k < PAGE_SIZE :: pages[i][..][k] == pages[i][k];
    ghost var at := i * PAGE_SIZE + off;
    forall k | 0 <= k < |before|
      ensures Flat(pages)[k] == if at <= k < at + n then src[from + k - at] else before[k]
    {
      FlatAt(pages, k / PAGE_SIZE, k % PAGE_SIZE);
      assert At(k % PAGE_SIZE);
      assert before[k / PAGE_SIZE * PAGE_SIZE + k % PAGE_SIZE] == before[k];
    }
  }

  /** copy_to_user from one page of a list: copies some non-empty prefix of the `n`
      bytes and returns how many are left to copy. */
  method CopyToUser(ubuf: array<byte>, at: nat, pages: seq<array<byte>>, i: nat, off: nat, n: nat)
    returns (left: nat)
    requires PageList(pages) && ubuf !in pages
    requires i < |pages| && 0 < n && off + n <= PAGE_SIZE && at + n <= ubuf.Length
    modifies ubuf
    ensures left < n
    ensures Holds(ubuf[..], old(ubuf[..]), at, Flat(pages), i * PAGE_SIZE + off, i * PAGE_SIZE + off + n - left)
  {
    left :| 0 <= left < n;
    Memcpy(ubuf, at, pages[i][..], off, n - left);
    forall k | 0 <= k < PAGE_SIZE
      ensures i * PAGE_SIZE + k < |Flat(pages)| && Flat(pages)[i * PAGE_SIZE + k] == pages[i][k]
    {
      FlatAt(pages, i, k);
    }
  }

  /** copy_from_user into one page of a list, with the same freedom. */
  method CopyFromUser(pages: seq<array<byte>>, i: nat, off: nat, ubuf: seq<byte>, from: nat, n: nat)
    returns (left: nat)
    requires PageList(pages) && i < |pages|
    requires 0 < n && from + n <= |ubuf| && off + n <= PAGE_SIZE
    modifies pages[i]
    ensures left < n
    ensures Holds(Flat(pages), old(Flat(pages)), i * PAGE_SIZE + off, ubuf, from, from + n - left)
  {
    left :| 0 <= left < n;
    MemcpyToPage(pages, i, off, ubuf, from, n - left);
  }
}
