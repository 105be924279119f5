/**
 One shared-memory segment: a flat array of words in which the allocator keeps its
 own block headers between the payloads it hands out.
 */
module SmaSegment {
  import opened SmaArena
  import opened SmaLaws

  // word positions inside a block header
  const SIZE := 0
  const PREV := 1
  const FNEXT := 2
  const FPREV := 3

  // ---------------------------------------------------------------- how memory holds an arena

  ghost predicate Apart(links: seq<int>) {
    forall i, j {:trigger links[i], links[j]} :: 0 <= i < j < |links| ==> links[i] + BLOCK <= links[j] || links[j] + BLOCK <= links[i]
  }

  ghost predicate InRange(m: seq<int>, links: seq<int>) {
    forall i {:trigger links[i]} :: 0 <= i < |links| ==> 0 < links[i] && links[i] + BLOCK <= |m|
  }

  /** Neighbours on the list point at each other. */
  ghost predicate Chained(m: seq<int>, links: seq<int>)
    requires InRange(m, links)
  {
    forall i, j {:trigger links[i], links[j]} :: 0 <= i < |links| && j == i + 1 && j < |links| ==>
      m[links[i] + FNEXT] == links[j] && m[links[j] + FPREV] == links[i]
  }

  /** The blocks of `a` lie in memory `m`, whatever its free list. */
  ghost predicate Laid(m: seq<int>, a: Arena) {
    && 0 < a.first
    && Tiled(a.blocks, Lo(a), a.last)
    && |m| == a.last + 2 * BLOCK
    && Lo(a) + BLOCK <= a.last
    && (forall o {:trigger a.blocks[o]} {:trigger o in a.blocks} :: o in a.blocks ==> o + BLOCK <= a.last)
  }

  /**
   Each block states its size, and states it again in its successor when it is free;
   the PREV word of header `x` is exempt.
   */
  ghost predicate TaggedBut(m: seq<int>, a: Arena, x: int)
    requires Laid(m, a)
  {
    && (forall o {:trigger a.blocks[o]} {:trigger o in a.blocks} :: o in a.blocks ==> m[o + SIZE] == a.blocks[o].size)
    && (forall o {:trigger Next(a.blocks, o)} :: o in a.blocks && Next(a.blocks, o) != x ==>
          m[Next(a.blocks, o) + PREV] == if a.blocks[o].free then a.blocks[o].size else 0)
    && m[Lo(a) + PREV] == 0
  }

  const NOWHERE := -1

  ghost predicate Tagged(m: seq<int>, a: Arena)
    requires Laid(m, a)
  {
    TaggedBut(m, a, NOWHERE)
  }

  /** A live block has no list successor. */
  ghost predicate OffList(m: seq<int>, a: Arena)
    requires Laid(m, a)
  {
    forall o {:trigger a.blocks[o]} {:trigger o in a.blocks} :: o in a.blocks && !a.blocks[o].free ==> m[o + FNEXT] == 0
  }

  ghost predicate Sentinels(m: seq<int>, a: Arena)
    requires Laid(m, a)
  {
    m[a.first + SIZE] == 0 && m[a.first + FPREV] == 0 && m[a.last + SIZE] == 0 && m[a.last + FNEXT] == 0
  }

  ghost predicate Holds(m: seq<int>, a: Arena) {
    && WellFormed(a)
    && Laid(m, a)
    && Sentinels(m, a)
    && Tagged(m, a)
    && OffList(m, a)
    && Apart(a.links)
    && InRange(m, a.links)
    && Chained(m, a.links)
  }

  lemma TiledLaid(m: seq<int>, a: Arena)
    requires 0 < a.first && Tiled(a.blocks, Lo(a), a.last) && |m| == a.last + 2 * BLOCK
    ensures Laid(m, a)
  {
    forall o | o in a.blocks ensures o + BLOCK <= a.last {
      BlocksEndBy(a.blocks, Lo(a), a.last, o);
    }
  }

  /** The block headers do not depend on the free list. */
  lemma LinksDoNotMatter(m: seq<int>, a: Arena, links: seq<int>)
    requires Laid(m, a)
    ensures Laid(m, a.(links := links))
    ensures Tagged(m, a) ==> Tagged(m, a.(links := links))
    ensures OffList(m, a) ==> OffList(m, a.(links := links))
    ensures Sentinels(m, a) ==> Sentinels(m, a.(links := links))
  {
  }

  ghost predicate IsHeader(a: Arena, o: int) {
    o == a.first || o == a.last || o in a.blocks
  }

  /** A header's words never coincide with another header's. */
  lemma HeaderApart(m: seq<int>, a: Arena, o: int)
    requires Laid(m, a) && IsHeader(a, o)
    ensures 0 < o && o + BLOCK <= |m|
    ensures forall p {:trigger IsHeader(a, p)} {:trigger p in a.blocks} ::
      IsHeader(a, p) && p != o ==> o + BLOCK <= p || p + BLOCK <= o
  {
    forall p | IsHeader(a, p) && p != o ensures o + BLOCK <= p || p + BLOCK <= o {
      if o in a.blocks && p in a.blocks {
        BlocksEndBy(a.blocks, Lo(a), a.last, o);
        BlocksEndBy(a.blocks, Lo(a), a.last, p);
        assert o < p ==> Next(a.blocks, o) <= p;
        assert p < o ==> Next(a.blocks, p) <= o;
      }
    }
  }

  lemma LinksApart(m: seq<int>, a: Arena)
    requires WellFormed(a) && Laid(m, a)
    ensures Apart(a.links) && InRange(m, a.links)
  {
    forall i | 0 <= i < |a.links| ensures IsHeader(a, a.links[i]) && 0 < a.links[i] && a.links[i] + BLOCK <= |m| {
      assert a.links[i] in a.links;
    }
    forall i, j | 0 <= i < j < |a.links|
      ensures a.links[i] + BLOCK <= a.links[j] || a.links[j] + BLOCK <= a.links[i]
    {
      HeaderApart(m, a, a.links[i]);
    }
  }

  // ---------------------------------------------------------------- single words

  /** Writing a list word of a header leaves the sizes alone. */
  lemma ListWordKeepsTags(m: seq<int>, a: Arena, x: int, h: int, w: int, v: int)
    requires Laid(m, a) && TaggedBut(m, a, x) && IsHeader(a, h) && (w == FNEXT || w == FPREV)
    ensures 0 < h && h + BLOCK <= |m|
    ensures Laid(m[h + w := v], a) && TaggedBut(m[h + w := v], a, x)
  {
    HeaderApart(m, a, h);
    var u := m[h + w := v];
    forall o {:trigger Next(a.blocks, o)} | o in a.blocks ensures u[Next(a.blocks, o) + PREV] == m[Next(a.blocks, o) + PREV] {
      assert IsHeader(a, Next(a.blocks, o));
    }
    assert IsHeader(a, Lo(a));
  }

  /** Writing a header word keeps live blocks off the list, unless it links a live block. */
  lemma WordKeepsOffList(m: seq<int>, a: Arena, h: int, w: int, v: int)
    requires Laid(m, a) && OffList(m, a) && IsHeader(a, h) && 0 <= w < BLOCK
    requires w == FNEXT && IsLive(a, h) ==> v == 0
    ensures 0 < h && h + BLOCK <= |m|
    ensures Laid(m[h + w := v], a) && OffList(m[h + w := v], a)
  {
    HeaderApart(m, a, h);
  }

  /** Writing a size word of a header leaves the list alone. */
  lemma TagWordKeepsChain(m: seq<int>, links: seq<int>, h: int, w: int, v: int)
    requires InRange(m, links) && Chained(m, links) && (w == SIZE || w == PREV)
    requires 0 < h && h + BLOCK <= |m|
    requires forall i {:trigger links[i]} :: 0 <= i < |links| && links[i] != h ==> h + BLOCK <= links[i] || links[i] + BLOCK <= h
    ensures InRange(m[h + w := v], links) && Chained(m[h + w := v], links)
  {
  }

  /** Writing a word of a header that is not a list member leaves the list alone. */
  lemma StrangerKeepsChain(m: seq<int>, links: seq<int>, h: int, w: int, v: int)
    requires InRange(m, links) && Chained(m, links) && 0 <= w < BLOCK
    requires 0 < h && h + BLOCK <= |m|
    requires forall i {:trigger links[i]} :: 0 <= i < |links| ==> h + BLOCK <= links[i] || links[i] + BLOCK <= h
    ensures InRange(m[h + w := v], links) && Chained(m[h + w := v], links)
  {
  }

  /** Restating the size of the block before `x` completes the tags. */
  lemma PrevWordCompletesTags(m: seq<int>, a: Arena, c: int)
    requires Laid(m, a) && c in a.blocks && TaggedBut(m, a, Next(a.blocks, c))
    ensures var x := Next(a.blocks, c); var v := if a.blocks[c].free then a.blocks[c].size else 0;
      && 0 < x && x + BLOCK <= |m|
      && Laid(m[x + PREV := v], a) && Tagged(m[x + PREV := v], a)
  {
    var x := Next(a.blocks, c);
    var u := m[x + PREV := if a.blocks[c].free then a.blocks[c].size else 0];
    HeaderApart(m, a, x);
    BlocksEndBy(a.blocks, Lo(a), a.last, c);
    assert IsHeader(a, Lo(a));
    forall o {:trigger Next(a.blocks, o)} | o in a.blocks
      ensures u[Next(a.blocks, o) + PREV] == if a.blocks[o].free then a.blocks[o].size else 0
    {
      assert IsHeader(a, Next(a.blocks, o));
      if o != c {
        BlocksEndBy(a.blocks, Lo(a), a.last, o);
        assert o < c ==> Next(a.blocks, o) <= c;
        assert c < o ==> x <= o;
      }
    }
  }

  /** Turning a block's mark needs no write except in its successor. */
  lemma MarkedTags(m: seq<int>, a: Arena, c: int, free: bool)
    requires Laid(m, a) && Tagged(m, a) && c in a.blocks
    ensures var d := a.(blocks := Marked(a.blocks, c, free));
      && Laid(m, d) && TaggedBut(m, d, Next(a.blocks, c)) && Next(d.blocks, c) == Next(a.blocks, c)
  {
    var d := a.(blocks := Marked(a.blocks, c, free));
    MarkedTiled(a.blocks, Lo(a), a.last, c, free);
    TiledLaid(m, d);
    assert forall o {:trigger Next(d.blocks, o)} :: o in d.blocks ==> Next(d.blocks, o) == Next(a.blocks, o);
  }

  /** Fusing two free blocks needs one size word, and leaves the end of the pair exempt. */
  lemma FusedTags(m: seq<int>, a: Arena, c: int, x: int)
    requires Laid(m, a) && FreeAt(a.blocks, c) && FreeAt(a.blocks, Next(a.blocks, c))
    requires TaggedBut(m, a, x) && (x == Next(a.blocks, c) || x == Next(a.blocks, Next(a.blocks, c)))
    ensures var d := a.(blocks := Fused(a.blocks, c)); var u := m[c + SIZE := d.blocks[c].size];
      && Laid(u, d) && TaggedBut(u, d, Next(d.blocks, c))
      && Next(d.blocks, c) == Next(a.blocks, Next(a.blocks, c))
  {
    var d := a.(blocks := Fused(a.blocks, c));
    var n := Next(a.blocks, c);
    var u := m[c + SIZE := d.blocks[c].size];
    FusedTiled(a.blocks, Lo(a), a.last, c);
    TiledLaid(u, d);
    HeaderApart(m, a, c);
    assert IsHeader(a, Lo(a));
    forall o {:trigger Next(d.blocks, o)} | o in d.blocks && Next(d.blocks, o) != Next(d.blocks, c)
      ensures u[Next(d.blocks, o) + PREV] == if d.blocks[o].free then d.blocks[o].size else 0
    {
      assert o != c && d.blocks[o] == a.blocks[o] && Next(d.blocks, o) == Next(a.blocks, o);
      assert IsHeader(a, Next(a.blocks, o));
      BlocksEndBy(a.blocks, Lo(a), a.last, o);
      assert Next(a.blocks, o) != n by {
        assert o < c ==> Next(a.blocks, o) <= c;
        assert c < o ==> n <= o;
      }
    }
  }

  /** `u` is `m` after the four writes that cut `c` after `r` of its `s` words. */
  ghost predicate CutMemory(m: seq<int>, u: seq<int>, c: int, r: int, s: int) {
    && 0 < c && BLOCK <= r && r + BLOCK <= s && c + s + BLOCK <= |m| == |u|
    && u[c + SIZE] == r && u[c + r + PREV] == 0 && u[c + r + SIZE] == s - r && u[c + s + PREV] == s - r
    && (forall w {:trigger u[w]} :: 0 <= w < |m| && w !in {c + SIZE, c + r + PREV, c + r + SIZE, c + s + PREV} ==> u[w] == m[w])
  }

  lemma CutSizes(m: seq<int>, u: seq<int>, a: Arena, c: int, r: int)
    requires Laid(m, a) && Tagged(m, a) && FreeAt(a.blocks, c) && CutMemory(m, u, c, r, a.blocks[c].size)
    ensures forall o :: o in a.blocks && o != c ==> u[o + SIZE] == a.blocks[o].size
  {
    BlocksEndBy(a.blocks, Lo(a), a.last, c);
    forall o | o in a.blocks && o != c ensures u[o + SIZE] == a.blocks[o].size {
      HeaderApart(m, a, o);
      assert c + BLOCK <= o || o + BLOCK <= c;
      assert c < o ==> Next(a.blocks, c) <= o;
      assert u[o + SIZE] == m[o + SIZE];
    }
  }

  lemma CutEnds(m: seq<int>, u: seq<int>, a: Arena, c: int, r: int)
    requires Laid(m, a) && Tagged(m, a) && FreeAt(a.blocks, c) && CutMemory(m, u, c, r, a.blocks[c].size)
    ensures forall o {:trigger Next(a.blocks, o)} :: o in a.blocks && o != c ==>
      u[Next(a.blocks, o) + PREV] == if a.blocks[o].free then a.blocks[o].size else 0
    ensures u[Lo(a) + PREV] == 0
  {
    BlocksEndBy(a.blocks, Lo(a), a.last, c);
    forall o {:trigger Next(a.blocks, o)} | o in a.blocks && o != c
      ensures u[Next(a.blocks, o) + PREV] == if a.blocks[o].free then a.blocks[o].size else 0
    {
      var x := Next(a.blocks, o);
      OtherEnds(a.blocks, Lo(a), a.last, c, o);
      HeaderApart(m, a, x);
      assert x < c ==> x + BLOCK <= c;
      assert u[x + PREV] == m[x + PREV];
    }
    HeaderApart(m, a, Lo(a));
    assert u[Lo(a) + PREV] == m[Lo(a) + PREV];
  }

  lemma CutLaid(m: seq<int>, u: seq<int>, a: Arena, c: int, r: int)
    requires Laid(m, a) && FreeAt(a.blocks, c) && CutMemory(m, u, c, r, a.blocks[c].size)
    ensures Laid(u, a.(blocks := Marked(Cut(a.blocks, c, r), c, false)))
  {
    CutTiled(a.blocks, Lo(a), a.last, c, r);
    MarkedTiled(Cut(a.blocks, c, r), Lo(a), a.last, c, false);
    TiledLaid(u, a.(blocks := Marked(Cut(a.blocks, c, r), c, false)));
  }

  /** Cutting a free block and handing out its first part takes those four writes. */
  lemma CutTags(m: seq<int>, u: seq<int>, a: Arena, c: int, r: int)
    requires Laid(m, a) && Tagged(m, a) && FreeAt(a.blocks, c) && CutMemory(m, u, c, r, a.blocks[c].size)
    ensures var d := a.(blocks := Marked(Cut(a.blocks, c, r), c, false));
      Laid(u, d) && Tagged(u, d)
  {
    var b := a.blocks;
    var d := a.(blocks := Marked(Cut(b, c, r), c, false));
    hide CutMemory;
    CutLaid(m, u, a, c, r);
    CutSizes(m, u, a, c, r);
    CutEnds(m, u, a, c, r);
    forall o {:trigger Next(d.blocks, o)} | o in d.blocks
      ensures u[Next(d.blocks, o) + PREV] == if d.blocks[o].free then d.blocks[o].size else 0
    {
      if o != c && o != c + r {
        assert Next(d.blocks, o) == Next(b, o);
      }
    }
  }

  /** Two blocks do not end at the same word, nor one strictly inside another. */
  lemma OtherEnds(b: Blocks, lo: int, hi: int, c: int, o: int)
    requires Tiled(b, lo, hi) && c in b && o in b && o != c
    ensures Next(b, o) <= c || Next(b, c) < Next(b, o)
  {
  }

  // ---------------------------------------------------------------- list surgery on words

  /** Memory after member `k` has been unlinked. */
  function Unlinked(m: seq<int>, links: seq<int>, k: int): seq<int>
    requires InRange(m, links) && 0 < k < |links| - 1
  {
    m[links[k - 1] + FNEXT := links[k + 1]][links[k + 1] + FPREV := links[k - 1]]
  }

  lemma UnlinkedChained(m: seq<int>, links: seq<int>, k: int)
    requires InRange(m, links) && Apart(links) && Chained(m, links) && 0 < k < |links| - 1
    ensures var rest := links[..k] + links[k + 1..];
      InRange(Unlinked(m, links, k), rest) && Apart(rest) && Chained(Unlinked(m, links, k), rest)
  {
    var rest := links[..k] + links[k + 1..];
    var u := Unlinked(m, links, k);
    forall i, j {:trigger rest[i], rest[j]} | 0 <= i < |rest| && j == i + 1 && j < |rest|
      ensures u[rest[i] + FNEXT] == rest[j] && u[rest[j] + FPREV] == rest[i]
    {
      var i0 := if i < k then i else i + 1;
      var j0 := if j < k then j else j + 1;
      assert rest[i] == links[i0] && rest[j] == links[j0];
    }
  }

  /** Memory after member `k` has been replaced by the header at `n`. */
  function Replaced(m: seq<int>, links: seq<int>, k: int, n: int): seq<int>
    requires InRange(m, links) && 0 < k < |links| - 1 && 0 < n && n + BLOCK <= |m|
  {
    m[n + FNEXT := links[k + 1]][n + FPREV := links[k - 1]][links[k + 1] + FPREV := n][links[k - 1] + FNEXT := n]
  }

  lemma ReplacedChained(m: seq<int>, links: seq<int>, k: int, n: int)
    requires InRange(m, links) && Apart(links) && Chained(m, links) && 0 < k < |links| - 1
    requires 0 < n && n + BLOCK <= |m| && Apart(links[k := n])
    ensures var rest := links[k := n]; var u := Replaced(m, links, k, n);
      InRange(u, rest) && Chained(u, rest)
  {
    var rest := links[k := n];
    var u := Replaced(m, links, k, n);
    assert rest[k] == n;
    forall i, j {:trigger rest[i], rest[j]} | 0 <= i < |rest| && j == i + 1 && j < |rest|
      ensures u[rest[i] + FNEXT] == rest[j] && u[rest[j] + FPREV] == rest[i]
    {
      assert i != k ==> rest[i] == links[i];
      assert j != k ==> rest[j] == links[j];
      assert rest[k - 1] == links[k - 1] && rest[k + 1] == links[k + 1];
    }
  }

  /** Memory after the header at `c` has been put behind the list head. */
  function Pushed(m: seq<int>, links: seq<int>, c: int): seq<int>
    requires InRange(m, links) && 2 <= |links| && 0 < c && c + BLOCK <= |m|
  {
    m[c + FNEXT := links[1]][links[0] + FNEXT := c][c + FPREV := links[0]][links[1] + FPREV := c]
  }

  ghost predicate ApartFrom(links: seq<int>, c: int) {
    forall i {:trigger links[i]} :: 0 <= i < |links| ==> c + BLOCK <= links[i] || links[i] + BLOCK <= c
  }

  lemma PushedWords(m: seq<int>, links: seq<int>, c: int)
    requires InRange(m, links) && Apart(links) && 2 <= |links| && 0 < c && c + BLOCK <= |m| && ApartFrom(links, c)
    ensures var u := Pushed(m, links, c);
      && u[c + FNEXT] == links[1] && u[links[0] + FNEXT] == c && u[c + FPREV] == links[0] && u[links[1] + FPREV] == c
      && (forall i {:trigger links[i]} :: 1 <= i < |links| ==> u[links[i] + FNEXT] == m[links[i] + FNEXT])
      && (forall i {:trigger links[i]} :: 2 <= i < |links| ==> u[links[i] + FPREV] == m[links[i] + FPREV])
  {
  }

  lemma PushedChained(m: seq<int>, links: seq<int>, c: int)
    requires InRange(m, links) && Apart(links) && Chained(m, links) && 2 <= |links|
    requires 0 < c && c + BLOCK <= |m| && ApartFrom(links, c)
    ensures var more := [links[0], c] + links[1..]; var u := Pushed(m, links, c);
      |u| == |m| && InRange(u, more) && Apart(more) && Chained(u, more)
  {
    var more := [links[0], c] + links[1..];
    var u := Pushed(m, links, c);
    assert |u| == |m|;
    PushedWords(m, links, c);
    forall i {:trigger more[i]} | 0 <= i < |more| ensures more[i] == if i == 0 then links[0] else if i == 1 then c else links[i - 1] {
    }
    assert Apart(more);
    forall i, j {:trigger more[i], more[j]} | 0 <= i < |more| && j == i + 1 && j < |more|
      ensures u[more[i] + FNEXT] == more[j] && u[more[j] + FPREV] == more[i]
    {
      if i >= 2 {
        assert m[links[i - 1] + FNEXT] == links[j - 1];
      }
    }
  }

  // ---------------------------------------------------------------- payloads

  /** Word `w` belongs to the payload of live block `o`. */
  ghost predicate InPayload(a: Arena, o: int, w: int) {
    IsLive(a, o) && o + BLOCK <= w < Next(a.blocks, o)
  }

  /** No payload word of a live block of `a` differs between `m` and `u`. */
  ghost predicate PayloadsKept(m: seq<int>, u: seq<int>, a: Arena) {
    |u| == |m| && forall o, w {:trigger InPayload(a, o, w)} :: InPayload(a, o, w) && 0 <= w < |m| ==> u[w] == m[w]
  }

  /** Header words are never payload words. */
  lemma HeaderWriteKeepsPayloads(m: seq<int>, a: Arena, h: int, w: int, v: int)
    requires Laid(m, a) && IsHeader(a, h) && 0 <= w < BLOCK
    ensures 0 < h && h + BLOCK <= |m|
    ensures PayloadsKept(m, m[h + w := v], a)
  {
  }

  /** Payloads of different live blocks share no word. */
  lemma PayloadsDisjoint(a: Arena, o: int, p: int, w: int)
    requires WellFormed(a) && InPayload(a, o, w) && InPayload(a, p, w)
    ensures o == p
  {
  }

  lemma PayloadsKeptTransitive(m: seq<int>, u: seq<int>, v: seq<int>, a: Arena)
    requires PayloadsKept(m, u, a) && PayloadsKept(u, v, a)
    ensures PayloadsKept(m, v, a)
  {
  }

  /** The sentinels' fixed words survive a write elsewhere. */
  lemma WordKeepsSentinels(m: seq<int>, a: Arena, h: int, w: int, v: int)
    requires Laid(m, a) && Sentinels(m, a) && IsHeader(a, h) && 0 <= w < BLOCK
    requires h == a.first ==> w == PREV || w == FNEXT
    requires h == a.last ==> w == PREV || w == FPREV
    ensures 0 < h && h + BLOCK <= |m|
    ensures Laid(m[h + w := v], a) && Sentinels(m[h + w := v], a)
  {
  }

  /** What every header write keeps, whatever the operation. */
  ghost predicate Sound(m: seq<int>, u: seq<int>, a: Arena) {
    Laid(u, a) && Sentinels(u, a) && OffList(u, a) && PayloadsKept(m, u, a)
  }

  lemma WordKeepsSound(m: seq<int>, u: seq<int>, a: Arena, h: int, w: int, v: int)
    requires Sound(m, u, a) && IsHeader(a, h) && 0 <= w < BLOCK
    requires h == a.first ==> w == PREV || w == FNEXT
    requires h == a.last ==> w == PREV || w == FPREV
    requires w == FNEXT && IsLive(a, h) ==> v == 0
    ensures 0 < h && h + BLOCK <= |u|
    ensures Sound(m, u[h + w := v], a)
  {
    WordKeepsSentinels(u, a, h, w, v);
    WordKeepsOffList(u, a, h, w, v);
    HeaderWriteKeepsPayloads(u, a, h, w, v);
    PayloadsKeptTransitive(m, u, u[h + w := v], a);
  }

  lemma HoldsSound(m: seq<int>, a: Arena)
    requires Holds(m, a)
    ensures WellFormed(a) && Laid(m, a) && Sound(m, m, a) && Tagged(m, a) && Sentinels(m, a) && OffList(m, a)
    ensures InRange(m, a.links) && Apart(a.links) && Chained(m, a.links)
  {
  }

  lemma HoldsSize(m: seq<int>, a: Arena, c: int)
    requires Holds(m, a) && c in a.blocks
    ensures WellFormed(a) && 0 < c && c + BLOCK <= |m| && m[c + SIZE] == a.blocks[c].size
  {
  }

  /** A list member strictly inside the list, with its neighbours. */
  lemma Neighbours(m: seq<int>, a: Arena, k: int)
    requires Holds(m, a) && ListIndex(a, k)
    ensures var p, c, x := a.links[k - 1], a.links[k], a.links[k + 1];
      && IsHeader(a, p) && IsHeader(a, x) && p != c && x != c && p != x
      && p != a.last && x != a.first && c != a.first && c != a.last
      && !IsLive(a, p) && !IsLive(a, x)
      && 0 < c && c + BLOCK <= |m| && m[c + FPREV] == p && m[c + FNEXT] == x
  {
    assert a.links[k - 1] in a.links && a.links[k + 1] in a.links;
    SentinelsAreNotBlocks(a);
  }

  lemma EndIsHeader(m: seq<int>, a: Arena, c: int)
    requires Holds(m, a) && c in a.blocks
    ensures var n := Next(a.blocks, c); IsHeader(a, n) && a.first < n && n != a.first && n + BLOCK <= |m| && n != c
    ensures 0 < c && c + BLOCK <= |m|
  {
  }

  /** Unlinking member `k`, seen from the blocks. */
  lemma UnlinkSound(m: seq<int>, a: Arena, k: int)
    requires Holds(m, a) && ListIndex(a, k)
    ensures Sound(m, Unlinked(m, a.links, k), a) && Laid(Unlinked(m, a.links, k), a)
    ensures Tagged(Unlinked(m, a.links, k), a)
  {
    hide Sound, TaggedBut, Holds, Laid, WellFormed;
    var p, x := a.links[k - 1], a.links[k + 1];
    Neighbours(m, a, k);
    HoldsSound(m, a);
    WordKeepsSound(m, m, a, p, FNEXT, x);
    ListWordKeepsTags(m, a, NOWHERE, p, FNEXT, x);
    var m1 := m[p + FNEXT := x];
    WordKeepsSound(m, m1, a, x, FPREV, p);
    ListWordKeepsTags(m1, a, NOWHERE, x, FPREV, p);
  }

  /** Memory after list member `k` has been handed out whole. */
  function TookWhole(m: seq<int>, a: Arena, k: int): seq<int>
    requires InRange(m, a.links) && 0 < k < |a.links| - 1 && a.links[k] in a.blocks
    requires 0 <= Next(a.blocks, a.links[k]) && Next(a.blocks, a.links[k]) + BLOCK <= |m|
  {
    Unlinked(m, a.links, k)[Next(a.blocks, a.links[k]) + PREV := 0][a.links[k] + FNEXT := 0]
  }

  ghost function WholeTaken(a: Arena, k: int): Arena
    requires 0 < k < |a.links| && a.links[k] in a.blocks
  {
    a.(blocks := Marked(a.blocks, a.links[k], false), links := a.links[..k] + a.links[k + 1..])
  }

  lemma TookWholeSound(m: seq<int>, a: Arena, k: int)
    requires Holds(m, a) && ListIndex(a, k)
    ensures 0 <= Next(a.blocks, a.links[k]) && Next(a.blocks, a.links[k]) + BLOCK <= |m|
    ensures Sound(m, TookWhole(m, a, k), a)
    ensures Laid(Unlinked(m, a.links, k), a) && Tagged(Unlinked(m, a.links, k), a)
  {
    hide Sound, TaggedBut, Holds, WellFormed, Tiled, Laid;
    var c := a.links[k];
    var n := Next(a.blocks, c);
    EndIsHeader(m, a, c);
    Neighbours(m, a, k);
    UnlinkSound(m, a, k);
    HoldsSound(m, a);
    var m2 := Unlinked(m, a.links, k);
    WordKeepsSound(m, m2, a, n, PREV, 0);
    WordKeepsSound(m, m2[n + PREV := 0], a, c, FNEXT, 0);
  }

  lemma TookWholeBlocks(m: seq<int>, a: Arena, k: int)
    requires Holds(m, a) && ListIndex(a, k)
    ensures 0 <= Next(a.blocks, a.links[k]) && Next(a.blocks, a.links[k]) + BLOCK <= |m|
    ensures var d := WholeTaken(a, k); var u := TookWhole(m, a, k);
      Laid(u, d) && Tagged(u, d) && Sentinels(u, d) && OffList(u, d)
  {
    hide Sound, TaggedBut, Holds, Laid, WellFormed, Sentinels, OffList, Chained, Apart;
    HoldsSound(m, a);
    TookWholeSound(m, a, k);
    var e := a.(blocks := Marked(a.blocks, a.links[k], false));
    var u := TookWhole(m, a, k);
    TookWholeTags(Unlinked(m, a.links, k), a, a.links[k]);
    SameButMarked(m, u, a, e, a.links[k]);
    LinksDoNotMatter(u, e, WholeTaken(a, k).links);
  }

  /** Handing a list member out whole, word by word, gives memory that holds the new arena. */
  lemma TookWholeHolds(m: seq<int>, a: Arena, k: int)
    requires Holds(m, a) && ListIndex(a, k)
    ensures 0 <= Next(a.blocks, a.links[k]) && Next(a.blocks, a.links[k]) + BLOCK <= |m|
    ensures InRange(m, a.links) && Holds(TookWhole(m, a, k), WholeTaken(a, k))
    ensures PayloadsKept(m, TookWhole(m, a, k), a)
  {
    TakeWholeWellFormed(a, k);
    TookWholeBlocks(m, a, k);
    TookWholeLinked(m, a, k);
    TookWholeSound(m, a, k);
  }

  /** The sentinels and the live blocks of `d`, which differs from `a` in one block that became live. */
  lemma SameButMarked(m: seq<int>, u: seq<int>, a: Arena, d: Arena, c: int)
    requires Sound(m, u, a) && Laid(u, d)
    requires a.first == d.first && a.last == d.last
    requires c in d.blocks && c + FNEXT < |u| && u[c + FNEXT] == 0
    requires forall o :: IsLive(d, o) && o != c ==> IsLive(a, o)
    ensures Sentinels(u, d) && OffList(u, d)
  {
    assert forall o :: o in d.blocks && !d.blocks[o].free ==> IsLive(d, o);
  }

  lemma TookWholeLinked(m: seq<int>, a: Arena, k: int)
    requires Holds(m, a) && ListIndex(a, k)
    ensures 0 <= Next(a.blocks, a.links[k]) && Next(a.blocks, a.links[k]) + BLOCK <= |m|
    ensures var rest := WholeTaken(a, k).links; var u := TookWhole(m, a, k);
      InRange(u, rest) && Apart(rest) && Chained(u, rest)
  {
    hide Laid, Tagged, TaggedBut, OffList, Coalesced, Sentinels;
    BlocksEndBy(a.blocks, Lo(a), a.last, a.links[k]);
    UnlinkedChained(m, a.links, k);
    UnlinkSound(m, a, k);
    TookWholeChain(Unlinked(m, a.links, k), a, k);
  }

  lemma TookWholeTags(m: seq<int>, a: Arena, c: int)
    requires Laid(m, a) && Tagged(m, a) && FreeAt(a.blocks, c)
    ensures var n := Next(a.blocks, c); var d := a.(blocks := Marked(a.blocks, c, false));
      && 0 < n && n + BLOCK <= |m| && 0 < c && c + BLOCK <= |m|
      && var u := m[n + PREV := 0][c + FNEXT := 0];
      && Laid(u, d) && Tagged(u, d)
  {
    hide Laid, TaggedBut;
    var d := a.(blocks := Marked(a.blocks, c, false));
    MarkedTags(m, a, c, false);
    PrevWordCompletesTags(m, d, c);
    ListWordKeepsTags(m[Next(a.blocks, c) + PREV := 0], d, NOWHERE, c, FNEXT, 0);
  }

  lemma NextIsHeader(m: seq<int>, a: Arena, c: int)
    requires Laid(m, a) && c in a.blocks
    ensures IsHeader(a, c) && IsHeader(a, Next(a.blocks, c))
  {
  }

  lemma RestApart(m: seq<int>, a: Arena, k: int)
    requires WellFormed(a) && Laid(m, a) && ListIndex(a, k)
    ensures var rest := a.links[..k] + a.links[k + 1..];
      forall i {:trigger rest[i]} :: 0 <= i < |rest| ==> IsHeader(a, rest[i]) && rest[i] != a.links[k]
  {
    var rest := a.links[..k] + a.links[k + 1..];
    OnceOnly(a.links, k);
    forall i | 0 <= i < |rest| ensures IsHeader(a, rest[i]) && rest[i] != a.links[k] {
      assert rest[i] in rest;
    }
  }

  lemma TookWholeChain(m: seq<int>, a: Arena, k: int)
    requires WellFormed(a) && Laid(m, a) && ListIndex(a, k)
    requires var rest := a.links[..k] + a.links[k + 1..]; InRange(m, rest) && Chained(m, rest)
    ensures var n, c := Next(a.blocks, a.links[k]), a.links[k];
      && 0 < n && n + BLOCK <= |m| && 0 < c && c + BLOCK <= |m|
      && var u := m[n + PREV := 0][c + FNEXT := 0]; var rest := a.links[..k] + a.links[k + 1..];
      InRange(u, rest) && Chained(u, rest)
  {
    hide WellFormed, Laid, Chained;
    var c := a.links[k];
    var n := Next(a.blocks, c);
    var rest := a.links[..k] + a.links[k + 1..];
    RestApart(m, a, k);
    NextIsHeader(m, a, c);
    HeaderApart(m, a, n);
    HeaderApart(m, a, c);
    TagWordKeepsChain(m, rest, n, PREV, 0);
    StrangerKeepsChain(m[n + PREV := 0], rest, c, FNEXT, 0);
  }

  ghost predicate CanSplit(a: Arena, k: int, r: int) {
    ListIndex(a, k) && BLOCK <= r && r + BLOCK <= a.blocks[a.links[k]].size
  }

  ghost function SplitTaken(a: Arena, k: int, r: int): Arena
    requires CanSplit(a, k, r)
  {
    a.(blocks := Marked(Cut(a.blocks, a.links[k], r), a.links[k], false), links := a.links[k := a.links[k] + r])
  }

  /** The arena with the block merely cut: both parts free, the list not yet touched. */
  ghost function CutOnly(a: Arena, k: int, r: int): Arena
    requires CanSplit(a, k, r)
  {
    a.(blocks := Cut(a.blocks, a.links[k], r))
  }

  /** Memory after the size words of a split have been written. */
  function SplitSizes(m: seq<int>, c: int, r: int, s: int): seq<int>
    requires 0 < c && BLOCK <= r && r + BLOCK <= s && c + s + BLOCK <= |m|
  {
    m[c + SIZE := r][c + r + PREV := 0][c + r + SIZE := s - r][c + s + PREV := s - r]
  }

  lemma CutOnlySound(m: seq<int>, a: Arena, k: int, r: int)
    requires Holds(m, a) && CanSplit(a, k, r)
    ensures Sound(m, m, CutOnly(a, k, r))
    ensures var c, s := a.links[k], a.blocks[a.links[k]].size; 0 < c && c + s + BLOCK <= |m|
  {
    CutTiled(a.blocks, Lo(a), a.last, a.links[k], r);
    TiledLaid(m, CutOnly(a, k, r));
    BlocksEndBy(a.blocks, Lo(a), a.last, a.links[k]);
  }

  /** The three headers a cut concerns. */
  ghost predicate CutHeaders(e: Arena, c: int, r: int, s: int) {
    && IsHeader(e, c) && IsHeader(e, c + r) && IsHeader(e, c + s)
    && c != e.first && c != e.last && c + r != e.first && c + r != e.last && c + s != e.first
    && BLOCK <= r && r + BLOCK <= s
  }

  lemma CutOnlyHeaders(m: seq<int>, a: Arena, k: int, r: int)
    requires Holds(m, a) && CanSplit(a, k, r)
    ensures CutHeaders(CutOnly(a, k, r), a.links[k], r, a.blocks[a.links[k]].size)
    ensures forall i {:trigger a.links[i]} :: 0 <= i < |a.links| ==> IsHeader(CutOnly(a, k, r), a.links[i])
  {
    Neighbours(m, a, k);
    BlocksEndBy(a.blocks, Lo(a), a.last, a.links[k]);
    assert IsHeader(a, Next(a.blocks, a.links[k]));
    forall i | 0 <= i < |a.links| ensures IsHeader(CutOnly(a, k, r), a.links[i]) {
      assert a.links[i] in a.links;
    }
  }

  lemma SplitSizesSound(m: seq<int>, e: Arena, c: int, r: int, s: int)
    requires Sound(m, m, e) && CutHeaders(e, c, r, s)
    ensures 0 < c && c + s + BLOCK <= |m|
    ensures Sound(m, SplitSizes(m, c, r, s), e)
  {
    hide Sound;
    WordKeepsSound(m, m, e, c, SIZE, r);
    var m1 := m[c + SIZE := r];
    WordKeepsSound(m, m1, e, c + r, PREV, 0);
    var m2 := m1[c + r + PREV := 0];
    WordKeepsSound(m, m2, e, c + r, SIZE, s - r);
    WordKeepsSound(m, m2[c + r + SIZE := s - r], e, c + s, PREV, s - r);
  }

  lemma SplitSizesTags(m: seq<int>, a: Arena, k: int, r: int)
    requires Holds(m, a) && CanSplit(a, k, r)
    ensures var c, s := a.links[k], a.blocks[a.links[k]].size;
      && 0 < c && c + s + BLOCK <= |m|
      && var d := a.(blocks := SplitTaken(a, k, r).blocks);
      Laid(SplitSizes(m, c, r, s), d) && Tagged(SplitSizes(m, c, r, s), d)
  {
    var c, s := a.links[k], a.blocks[a.links[k]].size;
    CutOnlySound(m, a, k, r);
    CutTags(m, SplitSizes(m, c, r, s), a, c, r);
  }

  lemma SplitSizesChain(m: seq<int>, e: Arena, links: seq<int>, c: int, r: int, s: int)
    requires Laid(m, e) && CutHeaders(e, c, r, s) && InRange(m, links) && Chained(m, links)
    requires forall i {:trigger links[i]} :: 0 <= i < |links| ==> IsHeader(e, links[i])
    ensures 0 < c && c + s + BLOCK <= |m|
    ensures InRange(SplitSizes(m, c, r, s), links) && Chained(SplitSizes(m, c, r, s), links)
  {
    hide Laid, Chained, InRange;
    TagWordKeepsMembers(m, e, links, c, SIZE, r);
    var m1 := m[c + SIZE := r];
    TagWordKeepsMembers(m1, e, links, c + r, PREV, 0);
    var m2 := m1[c + r + PREV := 0];
    TagWordKeepsMembers(m2, e, links, c + r, SIZE, s - r);
    TagWordKeepsMembers(m2[c + r + SIZE := s - r], e, links, c + s, PREV, s - r);
  }

  lemma TagWordKeepsMembers(m: seq<int>, e: Arena, links: seq<int>, h: int, w: int, v: int)
    requires Laid(m, e) && IsHeader(e, h) && InRange(m, links) && Chained(m, links) && (w == SIZE || w == PREV)
    requires forall i {:trigger links[i]} :: 0 <= i < |links| ==> IsHeader(e, links[i])
    ensures 0 < h && h + BLOCK <= |m|
    ensures Laid(m[h + w := v], e) && InRange(m[h + w := v], links) && Chained(m[h + w := v], links)
  {
    HeaderApart(m, e, h);
    TagWordKeepsChain(m, links, h, w, v);
  }

  /** The list writes of a split, on memory whose size words are already written. */
  lemma SplitListSound(m: seq<int>, u: seq<int>, e: Arena, p: int, c: int, n: int, x: int)
    requires Sound(m, u, e)
    requires IsHeader(e, p) && IsHeader(e, c) && IsHeader(e, n) && IsHeader(e, x)
    requires p != e.last && x != e.first && n != e.first && n != e.last && c != e.first && c != e.last
    requires !IsLive(e, p) && !IsLive(e, n)
    ensures 0 < p && p + BLOCK <= |u| && 0 < c && c + BLOCK <= |u| && 0 < n && n + BLOCK <= |u| && 0 < x
    ensures x + BLOCK <= |u|
    ensures Sound(m, u[n + FNEXT := x][n + FPREV := p][x + FPREV := n][p + FNEXT := n][c + FNEXT := 0], e)
  {
    hide Sound;
    WordKeepsSound(m, u, e, n, FNEXT, x);
    var u1 := u[n + FNEXT := x];
    WordKeepsSound(m, u1, e, n, FPREV, p);
    var u2 := u1[n + FPREV := p];
    WordKeepsSound(m, u2, e, x, FPREV, n);
    var u3 := u2[x + FPREV := n];
    WordKeepsSound(m, u3, e, p, FNEXT, n);
    WordKeepsSound(m, u3[p + FNEXT := n], e, c, FNEXT, 0);
  }

  lemma SplitListTags(u: seq<int>, d: Arena, p: int, c: int, n: int, x: int)
    requires Laid(u, d) && Tagged(u, d)
    requires IsHeader(d, p) && IsHeader(d, c) && IsHeader(d, n) && IsHeader(d, x)
    ensures 0 < p && p + BLOCK <= |u| && 0 < c && c + BLOCK <= |u| && 0 < n && n + BLOCK <= |u| && 0 < x
    ensures x + BLOCK <= |u|
    ensures var v := u[n + FNEXT := x][n + FPREV := p][x + FPREV := n][p + FNEXT := n][c + FNEXT := 0];
      Laid(v, d) && Tagged(v, d)
  {
    hide TaggedBut, Laid;
    ListWordKeepsTags(u, d, NOWHERE, n, FNEXT, x);
    var u1 := u[n + FNEXT := x];
    ListWordKeepsTags(u1, d, NOWHERE, n, FPREV, p);
    var u2 := u1[n + FPREV := p];
    ListWordKeepsTags(u2, d, NOWHERE, x, FPREV, n);
    var u3 := u2[x + FPREV := n];
    ListWordKeepsTags(u3, d, NOWHERE, p, FNEXT, n);
    ListWordKeepsTags(u3[p + FNEXT := n], d, NOWHERE, c, FNEXT, 0);
  }

  lemma SplitListChain(u: seq<int>, d: Arena, links: seq<int>, k: int, p: int, c: int, n: int, x: int)
    requires InRange(u, links) && Apart(links) && Chained(u, links) && 0 < k < |links| - 1
    requires p == links[k - 1] && c == links[k] && x == links[k + 1]
    requires WellFormed(d) && Laid(u, d) && d.links == links[k := n] && IsHeader(d, c) && IsHeader(d, n)
    requires c != n && c !in d.links
    ensures 0 < p && p + BLOCK <= |u| && 0 < c && c + BLOCK <= |u| && 0 < n && n + BLOCK <= |u| && 0 < x
    ensures x + BLOCK <= |u|
    ensures var v := u[n + FNEXT := x][n + FPREV := p][x + FPREV := n][p + FNEXT := n][c + FNEXT := 0];
      InRange(v, d.links) && Apart(d.links) && Chained(v, d.links)
  {
    LinksApart(u, d);
    HeaderApart(u, d, n);
    HeaderApart(u, d, c);
    ReplacedChained(u, links, k, n);
    forall i | 0 <= i < |d.links| ensures IsHeader(d, d.links[i]) && d.links[i] != c {
      assert d.links[i] in d.links;
    }
    StrangerKeepsChain(Replaced(u, links, k, n), d.links, c, FNEXT, 0);
  }

  /** The five list words a split writes. */
  function Swapped(u: seq<int>, p: int, c: int, n: int, x: int): seq<int>
    requires 0 < p && p + BLOCK <= |u| && 0 < c && c + BLOCK <= |u| && 0 < n && n + BLOCK <= |u| && 0 < x
    requires x + BLOCK <= |u|
  {
    u[n + FNEXT := x][n + FPREV := p][x + FPREV := n][p + FNEXT := n][c + FNEXT := 0]
  }

  /** What the list step of a split needs to know. */
  ghost predicate SwapReady(m: seq<int>, u: seq<int>, e: Arena, d: Arena, links: seq<int>, k: int, n: int) {
    && Sound(m, u, e) && Laid(u, d) && Tagged(u, d)
    && 0 < k < |links| - 1
    && InRange(u, links) && Apart(links) && Chained(u, links)
    && WellFormed(d) && d.links == links[k := n] && links[k] != n && links[k] !in d.links
    && IsHeader(e, links[k]) && IsHeader(e, n) && IsHeader(e, links[k - 1]) && IsHeader(e, links[k + 1])
    && IsHeader(d, links[k]) && IsHeader(d, n) && IsHeader(d, links[k - 1]) && IsHeader(d, links[k + 1])
    && links[k - 1] != e.last && links[k + 1] != e.first
    && n != e.first && n != e.last && links[k] != e.first && links[k] != e.last
    && !IsLive(e, links[k - 1]) && !IsLive(e, n)
  }

  lemma SwapDone(m: seq<int>, u: seq<int>, e: Arena, d: Arena, links: seq<int>, k: int, n: int)
    requires SwapReady(m, u, e, d, links, k, n)
    ensures var p, c, x := links[k - 1], links[k], links[k + 1];
      && 0 < p && p + BLOCK <= |u| && 0 < c && c + BLOCK <= |u| && 0 < n && n + BLOCK <= |u| && 0 < x && x + BLOCK <= |u|
      && u[c + FNEXT] == x && u[c + FPREV] == p
      && var v := Swapped(u, p, c, n, x);
      && Sound(m, v, e) && Laid(v, d) && Tagged(v, d)
      && InRange(v, d.links) && Apart(d.links) && Chained(v, d.links)
  {
    var p, c, x := links[k - 1], links[k], links[k + 1];
    SplitListSound(m, u, e, p, c, n, x);
    SplitListTags(u, d, p, c, n, x);
    SplitListChain(u, d, links, k, p, c, n, x);
  }

  /** The pieces of a finished split make up memory that holds the new arena. */
  lemma SplitFinished(m: seq<int>, u: seq<int>, a: Arena, k: int, r: int)
    requires WellFormed(a) && Laid(m, a) && CanSplit(a, k, r)
    requires Sound(m, u, CutOnly(a, k, r))
    requires var d := a.(blocks := SplitTaken(a, k, r).blocks);
      Laid(u, d) && Tagged(u, d) && 0 < a.links[k] && a.links[k] + BLOCK <= |u| && u[a.links[k] + FNEXT] == 0
    requires var links := SplitTaken(a, k, r).links; InRange(u, links) && Apart(links) && Chained(u, links)
    ensures Holds(u, SplitTaken(a, k, r)) && PayloadsKept(m, u, a)
  {
    hide Tagged, Chained, InRange, Apart, Tiled, Coalesced, Listed, PayloadsKept, Sentinels, OffList;
    SplitWellFormed(a, k, r);
    var d := a.(blocks := SplitTaken(a, k, r).blocks);
    SameButMarked(m, u, CutOnly(a, k, r), d, a.links[k]);
    LinksDoNotMatter(u, d, SplitTaken(a, k, r).links);
    SplitPayloads(m, u, a, k, r);
  }

  lemma SplitPayloads(m: seq<int>, u: seq<int>, a: Arena, k: int, r: int)
    requires WellFormed(a) && CanSplit(a, k, r) && PayloadsKept(m, u, CutOnly(a, k, r))
    ensures PayloadsKept(m, u, a)
  {
    hide Tiled, Coalesced;
    CutTiled(a.blocks, Lo(a), a.last, a.links[k], r);
    forall o, w | InPayload(a, o, w) ensures InPayload(CutOnly(a, k, r), o, w) {
    }
  }

  // ---------------------------------------------------------------- release, word by word

  /**
   Half-way through a release: `cur` is free in `d` and its size word is right, but it is
   not on the list yet and the block after it has not been told.
   */
  ghost predicate Freeing(m: seq<int>, u: seq<int>, d: Arena, links: seq<int>, cur: int) {
    && Sound(m, u, d)
    && FreeAt(d.blocks, cur)
    && TaggedBut(u, d, Next(d.blocks, cur))
    && Members(d, links, cur)
    && InRange(u, links) && Apart(links) && Chained(u, links)
  }

  /** `links` lists the free blocks other than `cur` between the sentinels. */
  ghost predicate Members(d: Arena, links: seq<int>, cur: int) {
    && 2 <= |links|
    && links[0] == d.first
    && links[|links| - 1] == d.last
    && Distinct(links)
    && (forall o :: o in links <==> o == d.first || o == d.last || (FreeAt(d.blocks, o) && o != cur))
  }

  lemma FreeingStarts(m: seq<int>, a: Arena, c: int)
    requires Holds(m, a) && IsLive(a, c)
    ensures Freeing(m, m, a.(blocks := Marked(a.blocks, c, true)), a.links, c)
  {
    MarkedTags(m, a, c, true);
    SentinelsAreNotBlocks(a);
    var d := a.(blocks := Marked(a.blocks, c, true));
    assert forall o :: FreeAt(d.blocks, o) && o != c <==> IsFree(a, o);
    assert OffList(m, d);
  }

  lemma MembersAreHeaders(d: Arena, links: seq<int>, cur: int)
    requires Members(d, links, cur)
    ensures forall i {:trigger links[i]} :: 0 <= i < |links| ==> IsHeader(d, links[i])
  {
    forall i | 0 <= i < |links| ensures IsHeader(d, links[i]) {
      assert links[i] in links;
    }
  }

  /** Whether a physical neighbour is free shows in its list word. */
  lemma ListWordTells(m: seq<int>, u: seq<int>, d: Arena, links: seq<int>, cur: int, n: int)
    requires Freeing(m, u, d, links, cur) && n != cur && (n in d.blocks || n == d.last)
    ensures 0 < n && n + BLOCK <= |u|
    ensures u[n + FNEXT] != 0 <==> FreeAt(d.blocks, n)
    ensures FreeAt(d.blocks, n) ==> exists k :: 0 < k < |links| - 1 && links[k] == n
  {
    if FreeAt(d.blocks, n) {
      HeaderApart(u, d, n);
      SentinelsOutside(u, d);
      assert n in links;
      var k :| 0 <= k < |links| && links[k] == n;
      assert u[links[k] + FNEXT] == links[k + 1];
    } else {
      HeaderApart(u, d, n);
      SentinelsOutside(u, d);
    }
  }

  lemma SentinelsOutside(m: seq<int>, d: Arena)
    requires Laid(m, d)
    ensures d.first !in d.blocks && d.last !in d.blocks && d.first != d.last
  {
  }

  /** One of `cur` and list member `y` physically precedes the other, starting at `s`. */
  ghost predicate Adjacent(d: Arena, cur: int, y: int, s: int) {
    && cur in d.blocks && y in d.blocks && cur != y
    && ((s == cur && Next(d.blocks, cur) == y) || (s == y && Next(d.blocks, y) == cur))
  }

  ghost function Absorbed(d: Arena, s: int): Arena
    requires s in d.blocks && Next(d.blocks, s) in d.blocks
  {
    d.(blocks := Fused(d.blocks, s))
  }

  lemma MemberNeighbours(u: seq<int>, d: Arena, links: seq<int>, cur: int, k: int)
    requires Laid(u, d) && Members(d, links, cur) && 0 < k < |links| - 1
    ensures var p, y, x := links[k - 1], links[k], links[k + 1];
      && IsHeader(d, p) && IsHeader(d, x) && FreeAt(d.blocks, y) && y != cur
      && !IsLive(d, p) && !IsLive(d, x) && p != d.last && x != d.first
  {
    SentinelsOutside(u, d);
    assert links[k - 1] in links && links[k] in links && links[k + 1] in links;
  }

  lemma FreeingParts(m: seq<int>, u: seq<int>, d: Arena, links: seq<int>, cur: int)
    requires Freeing(m, u, d, links, cur)
    ensures Laid(u, d) && Sound(m, u, d) && Members(d, links, cur) && InRange(u, links) && Apart(links)
    ensures Chained(u, links)
    ensures FreeAt(d.blocks, cur) && TaggedBut(u, d, Next(d.blocks, cur))
    ensures d.first !in d.blocks && d.last !in d.blocks
    ensures forall i {:trigger links[i]} :: 0 <= i < |links| ==> IsHeader(d, links[i])
  {
    MembersAreHeaders(d, links, cur);
  }

  lemma AbsorbSound(m: seq<int>, u: seq<int>, d: Arena, links: seq<int>, cur: int, k: int, s: int, v: int)
    requires Freeing(m, u, d, links, cur) && 0 < k < |links| - 1 && Adjacent(d, cur, links[k], s)
    ensures 0 < s && s + BLOCK <= |u|
    ensures Sound(m, Unlinked(u, links, k)[s + SIZE := v], d)
  {
    hide Freeing, Sound, TaggedBut, Tagged, Chained, Apart, InRange, Members, Laid;
    var p, x := links[k - 1], links[k + 1];
    FreeingParts(m, u, d, links, cur);
    MemberNeighbours(u, d, links, cur, k);
    WordKeepsSound(m, u, d, p, FNEXT, x);
    var u1 := u[p + FNEXT := x];
    WordKeepsSound(m, u1, d, x, FPREV, p);
    WordKeepsSound(m, u1[x + FPREV := p], d, s, SIZE, v);
  }

  lemma AbsorbTags(m: seq<int>, u: seq<int>, d: Arena, links: seq<int>, cur: int, k: int, s: int)
    requires Freeing(m, u, d, links, cur) && 0 < k < |links| - 1 && Adjacent(d, cur, links[k], s)
    ensures var e := Absorbed(d, s);
      && 0 < s && s + BLOCK <= |u|
      && var v := Unlinked(u, links, k)[s + SIZE := e.blocks[s].size];
      && Laid(v, e) && TaggedBut(v, e, Next(e.blocks, s)) && FreeAt(e.blocks, s)
  {
    hide Freeing, Sound, TaggedBut, Tagged, Chained, Apart, InRange, Members, Laid;
    var p, x := links[k - 1], links[k + 1];
    var end := Next(d.blocks, cur);
    FreeingParts(m, u, d, links, cur);
    MemberNeighbours(u, d, links, cur, k);
    ListWordKeepsTags(u, d, end, p, FNEXT, x);
    ListWordKeepsTags(u[p + FNEXT := x], d, end, x, FPREV, p);
    FusedTags(Unlinked(u, links, k), d, s, end);
    HeaderApart(u, d, s);
  }

  lemma AbsorbLinked(m: seq<int>, u: seq<int>, d: Arena, links: seq<int>, cur: int, k: int, s: int, v: int)
    requires Freeing(m, u, d, links, cur) && 0 < k < |links| - 1 && Adjacent(d, cur, links[k], s)
    ensures var rest := links[..k] + links[k + 1..];
      && 0 < s && s + BLOCK <= |u|
      && InRange(Unlinked(u, links, k)[s + SIZE := v], rest) && Apart(rest)
      && Chained(Unlinked(u, links, k)[s + SIZE := v], rest)
  {
    hide Freeing, Sound, TaggedBut, Tagged, Chained, Apart, InRange, Members;
    var rest := links[..k] + links[k + 1..];
    FreeingParts(m, u, d, links, cur);
    UnlinkedChained(u, links, k);
    assert Laid(Unlinked(u, links, k), d);
    forall i | 0 <= i < |rest| ensures IsHeader(d, rest[i]) {
      assert rest[i] == links[if i < k then i else i + 1];
    }
    TagWordKeepsMembers(Unlinked(u, links, k), d, rest, s, SIZE, v);
  }

  lemma AbsorbMembers(m: seq<int>, d: Arena, links: seq<int>, cur: int, k: int, s: int)
    requires Laid(m, d) && Members(d, links, cur) && 0 < k < |links| - 1 && Adjacent(d, cur, links[k], s)
    requires FreeAt(d.blocks, cur)
    ensures Members(Absorbed(d, s), links[..k] + links[k + 1..], s)
  {
    var rest := links[..k] + links[k + 1..];
    OnceOnly(links, k);
    var e := Absorbed(d, s);
    SentinelsOutside(m, d);
    forall o ensures o in rest <==> o == e.first || o == e.last || (FreeAt(e.blocks, o) && o != s) {
    }
  }

  /** What a fused arena inherits. */
  lemma SoundAbsorbed(m: seq<int>, u: seq<int>, d: Arena, s: int)
    requires Sound(m, u, d) && FreeAt(d.blocks, s) && FreeAt(d.blocks, Next(d.blocks, s)) && Laid(u, Absorbed(d, s))
    ensures Sound(m, u, Absorbed(d, s))
  {
    var e := Absorbed(d, s);
    forall o, w | InPayload(e, o, w) ensures InPayload(d, o, w) {
    }
  }

  /** Absorbing a free neighbour keeps the release half-way, now with the larger block. */
  lemma AbsorbKeepsFreeing(m: seq<int>, u: seq<int>, d: Arena, links: seq<int>, cur: int, k: int, s: int)
    requires Freeing(m, u, d, links, cur) && 0 < k < |links| - 1 && Adjacent(d, cur, links[k], s)
    ensures var e := Absorbed(d, s);
      && 0 < s && s + BLOCK <= |u|
      && Freeing(m, Unlinked(u, links, k)[s + SIZE := e.blocks[s].size], e, links[..k] + links[k + 1..], s)
  {
    var e := Absorbed(d, s);
    AbsorbSound(m, u, d, links, cur, k, s, e.blocks[s].size);
    AbsorbTags(m, u, d, links, cur, k, s);
    AbsorbLinked(m, u, d, links, cur, k, s, e.blocks[s].size);
    AbsorbMembers(u, d, links, cur, k, s);
    var v := Unlinked(u, links, k)[s + SIZE := e.blocks[s].size];
    assert FreeAt(d.blocks, links[k]) by {
      SentinelsOutside(u, d);
      assert links[k] in links;
    }
    SoundAbsorbed(m, v, d, s);
  }

  /** The arena a release ends in. */
  function Linked(d: Arena, links: seq<int>, cur: int): Arena
    requires 2 <= |links|
  {
    d.(links := [links[0], cur] + links[1..])
  }

  /** Memory once the block after `cur` has been told its size. */
  function Told(u: seq<int>, x: int, size: int): seq<int>
    requires 0 < x && x + BLOCK <= |u|
  {
    u[x + PREV := size]
  }

  lemma ToldDone(m: seq<int>, u: seq<int>, d: Arena, links: seq<int>, cur: int)
    requires Freeing(m, u, d, links, cur)
    ensures var x := Next(d.blocks, cur);
      && 0 < x && x + BLOCK <= |u|
      && var v := Told(u, x, d.blocks[cur].size);
      && Sound(m, v, d) && Laid(v, d) && Tagged(v, d) && InRange(v, links) && Apart(links) && Chained(v, links)
  {
    var x := Next(d.blocks, cur);
    PrevWordCompletesTags(u, d, cur);
    MembersAreHeaders(d, links, cur);
    BlocksEndBy(d.blocks, Lo(d), d.last, cur);
    WordKeepsSound(m, u, d, x, PREV, d.blocks[cur].size);
    TagWordKeepsMembers(u, d, links, x, PREV, d.blocks[cur].size);
  }

  lemma ListWordKeepsBoth(m: seq<int>, u: seq<int>, d: Arena, h: int, w: int, v: int)
    requires Sound(m, u, d) && Laid(u, d) && Tagged(u, d) && IsHeader(d, h) && (w == FNEXT || w == FPREV)
    requires !IsLive(d, h)
    requires h == d.first ==> w == FNEXT
    requires h == d.last ==> w == FPREV
    ensures 0 < h && h + BLOCK <= |u|
    ensures Sound(m, u[h + w := v], d) && Laid(u[h + w := v], d) && Tagged(u[h + w := v], d)
  {
    WordKeepsSound(m, u, d, h, w, v);
    ListWordKeepsTags(u, d, NOWHERE, h, w, v);
  }

  lemma PushSound(m: seq<int>, u: seq<int>, d: Arena, f: int, cur: int, x: int)
    requires Sound(m, u, d) && Laid(u, d) && Tagged(u, d) && FreeAt(d.blocks, cur)
    requires IsHeader(d, x) && x != d.first && !IsLive(d, x) && f == d.first
    ensures 0 < f && f + BLOCK <= |u| && 0 < cur && cur + BLOCK <= |u| && 0 < x && x + BLOCK <= |u|
    ensures var v := u[cur + FNEXT := x][f + FNEXT := cur][cur + FPREV := f][x + FPREV := cur];
      Sound(m, v, d) && Laid(v, d) && Tagged(v, d)
  {
    hide Sound, TaggedBut, Tagged, Laid;
    SentinelsOutside(u, d);
    ListWordKeepsBoth(m, u, d, cur, FNEXT, x);
    var u1 := u[cur + FNEXT := x];
    ListWordKeepsBoth(m, u1, d, f, FNEXT, cur);
    var u2 := u1[f + FNEXT := cur];
    ListWordKeepsBoth(m, u2, d, cur, FPREV, f);
    ListWordKeepsBoth(m, u2[cur + FPREV := f], d, x, FPREV, cur);
  }

  lemma PushLinked(u: seq<int>, d: Arena, links: seq<int>, cur: int)
    requires Laid(u, d) && Members(d, links, cur) && FreeAt(d.blocks, cur)
    requires InRange(u, links) && Apart(links) && Chained(u, links)
    ensures 0 < cur && cur + BLOCK <= |u|
    ensures var more := Linked(d, links, cur).links; var v := Pushed(u, links, cur);
      InRange(v, more) && Apart(more) && Chained(v, more)
    ensures Listed(Linked(d, links, cur))
  {
    HeaderApart(u, d, cur);
    MembersAreHeaders(d, links, cur);
    SentinelsOutside(u, d);
    assert cur !in links;
    PushedChained(u, links, cur);
    PushedAfterHead(links, cur);
  }

  lemma PushHead(u: seq<int>, d: Arena, links: seq<int>, cur: int)
    requires Laid(u, d) && Members(d, links, cur)
    ensures 2 <= |links| && links[0] == d.first && links[1] != d.first && !IsLive(d, links[1]) && IsHeader(d, links[1])
  {
    SentinelsOutside(u, d);
    assert links[1] in links;
  }

  /** Sound blocks and a sound list make up memory that holds the arena. */
  lemma PushAssembled(m: seq<int>, v: seq<int>, d: Arena, e: Arena)
    requires Sound(m, v, d) && Laid(v, d) && Tagged(v, d) && Coalesced(d.blocks) && Listed(e)
    requires e == d.(links := e.links) && InRange(v, e.links) && Apart(e.links) && Chained(v, e.links)
    ensures Holds(v, e) && PayloadsKept(m, v, e)
  {
    LinksDoNotMatter(v, d, e.links);
    forall o, w | InPayload(e, o, w) ensures InPayload(d, o, w) {
    }
  }

  /** Putting `cur` at the head of the list finishes the release. */
  lemma PushFinishes(m: seq<int>, u: seq<int>, d: Arena, links: seq<int>, cur: int)
    requires Sound(m, u, d) && Laid(u, d) && Tagged(u, d) && FreeAt(d.blocks, cur) && Coalesced(d.blocks)
    requires Members(d, links, cur) && InRange(u, links) && Apart(links) && Chained(u, links)
    ensures 0 < cur && cur + BLOCK <= |u|
    ensures Holds(Pushed(u, links, cur), Linked(d, links, cur))
    ensures PayloadsKept(m, Pushed(u, links, cur), Linked(d, links, cur))
  {
    hide Sound, TaggedBut, Tagged, Laid, Chained, Apart, InRange, Members, PayloadsKept, Coalesced;
    PushHead(u, d, links, cur);
    PushSound(m, u, d, links[0], cur, links[1]);
    PushLinked(u, d, links, cur);
    PushAssembled(m, Pushed(u, links, cur), d, Linked(d, links, cur));
  }

  /** The PREV word leads to the free block before, if there is one. */
  lemma PrevWordTells(m: seq<int>, a: Arena, c: int)
    requires Holds(m, a) && IsLive(a, c)
    ensures 0 < c && c + BLOCK <= |m|
    ensures MergeStart(a.blocks, c) == c - m[c + PREV]
    ensures m[c + PREV] != 0 <==> MergeStart(a.blocks, c) != c
  {
    HeaderApart(m, a, c);
    var s := MergeStart(a.blocks, c);
    if s != c {
      assert Next(a.blocks, s) == c;
    } else if c != Lo(a) {
      HasPredecessor(a.blocks, Lo(a), a.last, Lo(a), c);
      var p :| IsPredecessor(a.blocks, p, c);
      BlocksEndBy(a.blocks, Lo(a), a.last, p);
      assert m[Next(a.blocks, p) + PREV] == 0;
    }
  }

  /** Every block but the first ends where another one starts. */
  lemma {:induction false} HasPredecessor(b: Blocks, lo: int, hi: int, o: int, c: int)
    requires Tiled(b, lo, hi) && o in b && c in b && o < c
    ensures exists p :: IsPredecessor(b, p, c)
    decreases c - o
  {
    BlocksEndBy(b, lo, hi, o);
    BlocksEndBy(b, lo, hi, c);
    if Next(b, o) == c {
      assert IsPredecessor(b, o, c);
    } else {
      assert Next(b, o) <= c;
      HasPredecessor(b, lo, hi, Next(b, o), c);
    }
  }

  lemma EarlyExitSound(a: Arena, r: int)
    requires WellFormed(a) && FreeWords(a) + BLOCK < r
    ensures Choose(a, r) == |a.links|
  {
    forall o | IsFree(a, o) ensures a.blocks[o].size < r {
      BlockIsWithinFreeWords(a.blocks, Lo(a), a.last, Lo(a), o);
    }
    WordsFillRegion(a.blocks, Lo(a), a.last, Lo(a));
    ChoiceFailsIffNothingFits(a, r);
  }

  lemma SplitSwapReady(m: seq<int>, u: seq<int>, a: Arena, k: int, r: int)
    requires Holds(m, a) && CanSplit(a, k, r)
    requires Sound(m, u, CutOnly(a, k, r))
    requires var d := a.(blocks := SplitTaken(a, k, r).blocks); Laid(u, d) && Tagged(u, d)
    requires InRange(u, a.links) && Chained(u, a.links)
    ensures SwapReady(m, u, CutOnly(a, k, r), SplitTaken(a, k, r), a.links, k, a.links[k] + r)
  {
    hide Sound, Laid, Tagged, TaggedBut, Chained, InRange, OffList, Coalesced;
    var e, d := CutOnly(a, k, r), SplitTaken(a, k, r);
    LinksDoNotMatter(u, a.(blocks := d.blocks), d.links);
    SplitWellFormed(a, k, r);
    CutOnlyHeaders(m, a, k, r);
    Neighbours(m, a, k);
    assert IsHeader(e, a.links[k - 1]) && IsHeader(e, a.links[k]) && IsHeader(e, a.links[k + 1]);
  }

  lemma HoldsReleasable(m: seq<int>, a: Arena, c: int)
    requires Holds(m, a) && IsLive(a, c)
    ensures WellFormed(a) && Coalesced(Merged(a.blocks, c))
  {
    MergedCoalesced(a.blocks, Lo(a), a.last, c);
  }

  /** Where a release stands once the block before has been dealt with. */
  lemma ReleaseSoFar(a: Arena, c: int, d: Arena, links: seq<int>, cur: int)
    requires WellFormed(a) && IsLive(a, c) && cur == MergeStart(a.blocks, c)
    requires d == a.(blocks := if cur == c then Marked(a.blocks, c, true) else Fused(Marked(a.blocks, c, true), cur))
    requires links == Without(a.links, cur)
    ensures cur in d.blocks && Next(d.blocks, cur) == Next(a.blocks, c) && Next(a.blocks, c) != cur
    ensures FreeAt(d.blocks, Next(d.blocks, cur)) == FreeAt(a.blocks, Next(a.blocks, c))
    ensures Next(a.blocks, c) == a.last || Next(d.blocks, cur) in d.blocks
    ensures Merged(a.blocks, c) == if FreeAt(d.blocks, Next(d.blocks, cur)) then Fused(d.blocks, cur) else d.blocks
    ensures Relinked(a, c) == [a.first, cur] + var rest := if FreeAt(d.blocks, Next(d.blocks, cur)) then Without(links, Next(d.blocks, cur)) else links;
                                               if rest == [] then [] else rest[1..]
  {
  }

  // ---------------------------------------------------------------- walking the list

  /** What a walk along the free list relies on. */
  ghost predicate Walkable(m: seq<int>, a: Arena) {
    && 2 <= |a.links|
    && InRange(m, a.links)
    && Chained(m, a.links)
    && m[a.links[|a.links| - 1] + FNEXT] == 0
    && (forall k {:trigger a.links[k]} :: 0 < k < |a.links| ==> m[a.links[k] + SIZE] == SizeAt(a, a.links[k]))
  }

  lemma HoldsWalkable(m: seq<int>, a: Arena)
    requires Holds(m, a)
    ensures Walkable(m, a)
  {
    SentinelsAreNotBlocks(a);
    forall k | 0 < k < |a.links| ensures m[a.links[k] + SIZE] == SizeAt(a, a.links[k]) {
      assert a.links[k] in a.links;
    }
  }

  lemma InitialHolds(m: seq<int>, first: int, last: int)
    requires 0 < first && first + 2 * BLOCK <= last && |m| == last + 2 * BLOCK
    requires m[first + SIZE] == 0 && m[first + PREV] == 0 && m[first + FNEXT] == first + BLOCK && m[first + FPREV] == 0
    requires m[first + BLOCK + SIZE] == last - first - BLOCK && m[first + BLOCK + PREV] == 0
    requires m[first + BLOCK + FNEXT] == last && m[first + BLOCK + FPREV] == first
    requires m[last + SIZE] == 0 && m[last + PREV] == last - first - BLOCK && m[last + FNEXT] == 0
    requires m[last + FPREV] == first + BLOCK
    ensures Holds(m, Initial(first, last))
    ensures FreeWords(Initial(first, last)) == last - first - BLOCK
  {
    var a := Initial(first, last);
    InitialWellFormed(first, last);
    TiledLaid(m, a);
    LinksApart(m, a);
    assert Next(a.blocks, Lo(a)) == last;
    assert Words(a.blocks, Lo(a), last, last, true) == 0;
  }

  /** A payload word is no header's word. */
  lemma PayloadWordIsNoHeaderWord(m: seq<int>, a: Arena, o: int, w: int)
    requires Laid(m, a) && InPayload(a, o, w)
    ensures 0 <= w < |m|
    ensures forall h {:trigger IsHeader(a, h)} {:trigger h in a.blocks} :: IsHeader(a, h) ==> w < h || h + BLOCK <= w
  {
  }

  lemma PayloadWriteKeepsBlocks(m: seq<int>, a: Arena, o: int, w: int, v: int)
    requires Laid(m, a) && InPayload(a, o, w) && Sentinels(m, a) && Tagged(m, a) && OffList(m, a)
    ensures 0 <= w < |m|
    ensures var u := m[w := v]; Laid(u, a) && Sentinels(u, a) && Tagged(u, a) && OffList(u, a)
  {
  }

  /** Whatever a caller writes into its payload, the allocator's structure stands. */
  lemma PayloadWriteKeepsHolds(m: seq<int>, a: Arena, o: int, w: int, v: int)
    requires Holds(m, a) && InPayload(a, o, w)
    ensures 0 <= w < |m| && Holds(m[w := v], a)
  {
    PayloadWriteKeepsBlocks(m, a, o, w, v);
    PayloadWordIsNoHeaderWord(m, a, o, w);
    var u := m[w := v];
    forall i | 0 <= i < |a.links| ensures w < a.links[i] || a.links[i] + BLOCK <= w {
      assert a.links[i] in a.links;
      assert IsHeader(a, a.links[i]);
    }
    forall i, j {:trigger a.links[i], a.links[j]} | 0 <= i < |a.links| && j == i + 1 && j < |a.links|
      ensures u[a.links[i] + FNEXT] == a.links[j] && u[a.links[j] + FPREV] == a.links[i]
    {
      assert m[a.links[i] + FNEXT] == a.links[j];
    }
  }

  // ---------------------------------------------------------------- the segment

  class Segment {
    const base: int      // address of the segment
    const header: int    // words taken by the segment's own header
    const mem: array<int>
    var avail: int
    ghost var arena: Arena

    ghost predicate Valid()
      reads this, mem
    {
      Holds(mem[..], arena) && arena.first == header && avail == FreeWords(arena) + BLOCK
    }

    /** A segment of `size` words at address `base`, its own header taking `header` words. */
    constructor (size: nat, header: nat, base: int)
      requires 0 < header && header + 4 * BLOCK <= size
      ensures Valid() && fresh(mem)
      ensures arena == Initial(header, size - 2 * BLOCK)
      ensures this.base == base && this.header == header && mem.Length == size
    {
      this.base := base;
      this.header := header;
      mem := new int[size];
      avail := size - header - BLOCK - BLOCK;
      new;
      var first := header;
      mem[first + SIZE] := 0;
      mem[first + FNEXT] := header + BLOCK;
      mem[first + FPREV] := 0;
      mem[first + PREV] := 0;
      var empty := mem[first + FNEXT];
      mem[empty + SIZE] := avail - BLOCK;
      mem[empty + FNEXT] := empty + mem[empty + SIZE];
      mem[empty + FPREV] := header;
      mem[empty + PREV] := 0;
      var last := mem[empty + FNEXT];
      mem[last + SIZE] := 0;
      mem[last + FNEXT] := 0;
      mem[last + FPREV] := empty;
      mem[last + PREV] := mem[empty + SIZE];
      arena := Initial(first, last);
      assert mem[..][first + FNEXT] == first + BLOCK;
      InitialHolds(mem[..], header, last);
    }

    /** Writes the sizes of the two parts of list member `k`. */
    method WriteSplitSizes(c: int, r: int, ghost k: int)
      requires Holds(mem[..], arena) && CanSplit(arena, k, r) && c == arena.links[k]
      modifies mem
      ensures Sound(old(mem[..]), mem[..], CutOnly(arena, k, r))
      ensures var d := arena.(blocks := SplitTaken(arena, k, r).blocks); Laid(mem[..], d) && Tagged(mem[..], d)
      ensures InRange(mem[..], arena.links) && Chained(mem[..], arena.links)
    {
      ghost var m := mem[..];
      ghost var s := arena.blocks[c].size;
      CutOnlySound(m, arena, k, r);
      assert m[c + SIZE] == s;
      var oldsize := mem[c + SIZE];
      mem[c + SIZE] := r;
      var nxt := c + mem[c + SIZE];
      mem[nxt + PREV] := 0;
      mem[nxt + SIZE] := oldsize - r;
      mem[nxt + mem[nxt + SIZE] + PREV] := mem[nxt + SIZE];
      assert mem[..] == SplitSizes(m, c, r, s);
      CutOnlyHeaders(m, arena, k, r);
      SplitSizesSound(m, CutOnly(arena, k, r), c, r, s);
      SplitSizesTags(m, arena, k, r);
      SplitSizesChain(m, CutOnly(arena, k, r), arena.links, c, r, s);
    }

    /** Puts the rest `nxt` of a cut block into the list in place of member `k`. */
    method SwapIntoList(c: int, nxt: int, ghost m: seq<int>, ghost e: Arena, ghost d: Arena, ghost links: seq<int>, ghost k: int)
      requires SwapReady(m, mem[..], e, d, links, k, nxt) && c == links[k]
      modifies mem
      ensures Sound(m, mem[..], e) && Laid(mem[..], d) && Tagged(mem[..], d)
      ensures InRange(mem[..], d.links) && Apart(d.links) && Chained(mem[..], d.links)
      ensures 0 < c && c + BLOCK <= mem.Length && mem[c + FNEXT] == 0
    {
      ghost var u := mem[..];
      SwapDone(m, u, e, d, links, k, nxt);
      assert u[c + FNEXT] == links[k + 1] && u[c + FPREV] == links[k - 1];
      var fnext, fprev := mem[c + FNEXT], mem[c + FPREV];
      mem[nxt + FNEXT] := fnext;
      mem[nxt + FPREV] := fprev;
      mem[fnext + FPREV] := nxt;
      mem[fprev + FNEXT] := nxt;
      mem[c + FNEXT] := 0;
      assert mem[..] == Swapped(u, links[k - 1], c, nxt, links[k + 1]);
    }

    /** Takes list member `k` off the list and marks it live. */
    method TakeWholeBlock(c: int, ghost k: int)
      requires Holds(mem[..], arena) && ListIndex(arena, k) && c == arena.links[k]
      modifies mem
      ensures Holds(mem[..], WholeTaken(arena, k)) && PayloadsKept(old(mem[..]), mem[..], arena)
    {
      hide Holds, Laid, WellFormed, PayloadsKept, Tiled;
      ghost var m := mem[..];
      HoldsSize(m, arena, c);
      TookWholeHolds(m, arena, k);
      Neighbours(m, arena, k);
      var prv, fnext, size := mem[c + FPREV], mem[c + FNEXT], mem[c + SIZE];
      mem[prv + FNEXT] := fnext;
      mem[fnext + FPREV] := prv;
      mem[c + size + PREV] := 0;
      mem[c + FNEXT] := 0;
      assert mem[..] == TookWhole(m, arena, k);
    }

    /** Takes list member `k`, a neighbour of the block being freed, off the list and fuses the two. */
    method Absorb(y: int, s: int, add: int, ghost m: seq<int>, ghost d: Arena, ghost links: seq<int>, ghost cur: int, ghost k: int)
      requires Freeing(m, mem[..], d, links, cur) && 0 < k < |links| - 1 && links[k] == y && Adjacent(d, cur, y, s)
      requires 0 <= s && s + BLOCK <= mem.Length && mem[s + SIZE] + add == Absorbed(d, s).blocks[s].size
      modifies mem
      ensures Freeing(m, mem[..], Absorbed(d, s), links[..k] + links[k + 1..], s)
    {
      hide Freeing, Sound, TaggedBut, Laid, Apart, Members;
      ghost var u := mem[..];
      AbsorbKeepsFreeing(m, u, d, links, cur, k, s);
      FreeingParts(m, u, d, links, cur);
      assert u[links[k] + FNEXT] == links[k + 1] && u[links[k - 1] + FNEXT] == y && u[y + FPREV] == links[k - 1];
      var fnext, fprev, size := mem[y + FNEXT], mem[y + FPREV], mem[s + SIZE];
      mem[fprev + FNEXT] := fnext;
      mem[fnext + FPREV] := fprev;
      mem[s + SIZE] := size + add;
      assert mem[..] == Unlinked(u, links, k)[s + SIZE := Absorbed(d, s).blocks[s].size];
    }

    /** Tells the next block, then puts `cur` at the head of the list. */
    method PutAtHead(cur: int, ghost m: seq<int>, ghost d: Arena, ghost links: seq<int>)
      requires Freeing(m, mem[..], d, links, cur) && Coalesced(d.blocks) && header == d.first
      modifies mem
      ensures 2 <= |links| && links[0] == d.first
      ensures Holds(mem[..], Linked(d, links, cur))
      ensures PayloadsKept(m, mem[..], Linked(d, links, cur))
    {
      hide Holds, PayloadsKept, Coalesced, Sentinels, OffList, Tagged;
      ghost var u := mem[..];
      ToldDone(m, u, d, links, cur);
      assert u[cur + SIZE] == d.blocks[cur].size;
      HeaderApart(u, d, cur);
      var size := mem[cur + SIZE];
      mem[cur + size + PREV] := size;
      ghost var v := Told(u, Next(d.blocks, cur), d.blocks[cur].size);
      assert mem[..] == v;
      PushFinishes(m, v, d, links, cur);
      FreeingParts(m, u, d, links, cur);
      assert v[links[0] + FNEXT] == links[1];
      var prv := header;
      var fnext := mem[prv + FNEXT];
      mem[cur + FNEXT] := fnext;
      mem[prv + FNEXT] := cur;
      mem[cur + FPREV] := prv;
      mem[fnext + FPREV] := cur;
      assert mem[..] == Pushed(v, links, cur);
    }

    /** What the walk reads at list member `k`. */
    ghost predicate At(o: int, k: int)
      reads this, mem
    {
      && 0 <= k < |arena.links| && o == arena.links[k]
      && 0 < o && o + BLOCK <= mem.Length
      && mem[o + FNEXT] == (if k + 1 < |arena.links| then arena.links[k + 1] else 0)
      && (k > 0 ==> mem[o + SIZE] == SizeAt(arena, o))
    }

    lemma WalkAt(k: int)
      requires Walkable(mem[..], arena) && 0 <= k < |arena.links|
      ensures At(arena.links[k], k)
      ensures k + 1 < |arena.links| ==> arena.links[k + 1] > 0
    {
    }

    /** First fit, then up to three further list members for a smaller fit. */
    method FindBlock(realsize: int) returns (found: int, ghost k: int)
      requires Walkable(mem[..], arena) && header == arena.links[0] && BLOCK <= realsize
      ensures k == Choose(arena, realsize) && (k < |arena.links| ==> 0 < k && found > 0)
      ensures found == if Choose(arena, realsize) < |arena.links| then arena.links[Choose(arena, realsize)] else 0
    {
      hide Walkable, Chained, InRange, FirstFit, Improve;
      found, k := FindFirst(realsize);
      if found != 0 {
        found, k := BetterFit(realsize, found, k);
      }
    }

    /** The first block of the list that is large enough. */
    method FindFirst(realsize: int) returns (found: int, ghost k: int)
      requires Walkable(mem[..], arena) && header == arena.links[0] && BLOCK <= realsize
      ensures 0 < k <= |arena.links| && k == FirstFit(arena, realsize, 1)
      ensures found == if FirstFit(arena, realsize, 1) < |arena.links| then arena.links[FirstFit(arena, realsize, 1)] else 0
      ensures k < |arena.links| ==> found > 0 && SizeAt(arena, found) >= realsize
    {
      hide Chained, InRange;
      ghost var links := arena.links;
      var prv := header;
      found := 0;
      k := 0;
      WalkAt(0);
      while mem[prv + FNEXT] != 0
        invariant At(prv, k) && found == 0
        invariant k + 1 < |links| ==> links[k + 1] > 0
        invariant FirstFit(arena, realsize, 1) == FirstFit(arena, realsize, k + 1)
        decreases |links| - k
      {
        var cur := mem[prv + FNEXT];
        k := k + 1;
        WalkAt(k);
        if mem[cur + SIZE] >= realsize {
          found := cur;
          return;
        }
        prv := cur;
      }
      k := |links|;
    }

    method BetterFit(realsize: int, first: int, ghost f: int) returns (found: int, ghost k: int)
      requires Walkable(mem[..], arena) && BLOCK <= realsize
      requires 0 < f < |arena.links| && first == arena.links[f] && SizeAt(arena, first) >= realsize
      ensures 0 < k < |arena.links| && found == arena.links[k] && found > 0
      ensures k == Improve(arena, realsize, f + 1, BEST_FIT_LIMIT, f)
    {
      hide Walkable, Chained, InRange, FreeWords, Tiled, Listed;
      ghost var links := arena.links;
      found, k := first, f;
      var prv := first;
      ghost var j := f;
      var i := 0;
      WalkAt(f);
      while i < BEST_FIT_LIMIT && mem[prv + FNEXT] != 0
        invariant 0 <= i <= BEST_FIT_LIMIT && 0 < k <= j
        invariant At(prv, j) && At(found, k) && SizeAt(arena, found) >= realsize
        invariant j + 1 < |links| ==> links[j + 1] > 0
        invariant Improve(arena, realsize, f + 1, BEST_FIT_LIMIT, f) == Improve(arena, realsize, j + 1, BEST_FIT_LIMIT - i, k)
      {
        var cur := mem[prv + FNEXT];
        j := j + 1;
        WalkAt(j);
        if mem[cur + SIZE] >= realsize && mem[cur + SIZE] < mem[found + SIZE] {
          found := cur;
          k := j;
        }
        prv := cur;
        i := i + 1;
      }
    }

    // ------------------------------------------------------------ the two operations

    /** Hands out list member `k`, whole or cut after `r` words. */
    method Place(c: int, r: int, fragment: nat, ghost k: int) returns (granted: int)
      requires Holds(mem[..], arena) && BLOCK <= r
      requires k == Choose(arena, r) && k < |arena.links| && c == arena.links[k]
      modifies mem
      ensures c in arena.blocks && var d := Take(arena, k, r, fragment);
        && 0 < c && WellFormed(arena) && WellFormed(d) && IsLive(d, c) && granted == d.blocks[c].size
        && FreeWords(d) == FreeWords(arena) - granted && r <= granted < r + MIN_BLOCK + fragment
        && Holds(mem[..], d)
      ensures PayloadsKept(old(mem[..]), mem[..], arena)
    {
      hide Holds, Laid, Sentinels, OffList, Chained, Apart, InRange, FreeWords, BestOfWindow, WellFormed, PayloadsKept,
        Choose, TaggedBut, Tagged;
      HoldsSound(mem[..], arena);
      AllocateTakesItsBlock(arena, r, fragment);
      ChoiceIsBestOfWindow(arena, r);
      HoldsSize(mem[..], arena, c);
      var size := mem[c + SIZE];
      if size == r || (size > r && size < r + (MIN_BLOCK + fragment)) {
        granted := size;
        TakeWholeBlock(c, k);
      } else {
        granted := r;
        SplitBlock(c, r, k);
      }
    }

    /** Cuts list member `k` after `r` words and hands out the first part. */
    method SplitBlock(c: int, r: int, ghost k: int)
      requires Holds(mem[..], arena) && CanSplit(arena, k, r) && c == arena.links[k]
      modifies mem
      ensures Holds(mem[..], SplitTaken(arena, k, r)) && PayloadsKept(old(mem[..]), mem[..], arena)
    {
      hide Sound, TaggedBut, Laid, Chained, Apart, InRange, WellFormed, Holds, SwapReady, PayloadsKept;
      ghost var m := mem[..];
      ghost var e, d := CutOnly(arena, k, r), SplitTaken(arena, k, r);
      HoldsSound(m, arena);
      WriteSplitSizes(c, r, k);
      SplitSwapReady(m, mem[..], arena, k, r);
      SwapIntoList(c, c + r, m, e, d, arena.links, k);
      LinksDoNotMatter(mem[..], d, arena.links);
      SplitFinished(m, mem[..], arena, k, r);
    }

    /**
     Tries to allocate `n` bytes.  On success `off` is the payload's word offset and
     `granted` the payload words of the block; on failure nothing changes.
     */
    method Allocate(n: nat, fragment: nat) returns (off: int, granted: int)
      requires Valid()
      modifies this, mem
      ensures Valid()
      ensures WellFormed(old(arena))
      ensures match SmaArena.Allocate(old(arena), RealSize(n), fragment)
        case NoFit => off == -1 && arena == old(arena) && avail == old(avail) && mem[..] == old(mem[..])
        case Fit(c, d) =>
          && 0 < c && off == c + BLOCK && arena == d && IsLive(d, c)
          && granted == d.blocks[c].size - BLOCK && avail == old(avail) - d.blocks[c].size
          && n <= granted * WORD_BYTES < n + WORD_BYTES * (1 + MIN_BLOCK + fragment)
          && PayloadsKept(old(mem[..]), mem[..], old(arena))
    {
      hide Tiled, Coalesced, Laid, Sentinels, TaggedBut, Tagged, OffList, InRange, Chained, PayloadsKept, FreeWords,
        Choose;
      var realsize := RealSize(n);
      ghost var a := arena;
      if avail < realsize {
        EarlyExitSound(a, realsize);
        return -1, 0;
      }
      HoldsWalkable(mem[..], a);
      var cur, k := FindBlock(realsize);
      if cur == 0 {
        return -1, 0;
      }
      var size := Place(cur, realsize, fragment, k);
      assert SmaArena.Allocate(a, realsize, fragment) == Fit(cur, Take(a, k, realsize, fragment));
      avail := avail - size;
      arena := Take(a, k, realsize, fragment);
      off, granted := cur + BLOCK, size - BLOCK;
    }

    /** Merges the block being freed with a free block before it. */
    method MergeBefore(c: int, ghost m: seq<int>) returns (cur: int, ghost d: Arena, ghost links: seq<int>)
      requires Holds(mem[..], arena) && IsLive(arena, c) && m == mem[..]
      modifies mem
      ensures Freeing(m, mem[..], d, links, cur)
      ensures cur == MergeStart(arena.blocks, c) && links == Without(arena.links, cur)
      ensures d == arena.(blocks := if cur == c then Marked(arena.blocks, c, true) else Fused(Marked(arena.blocks, c, true), cur))
    {
      PrevWordTells(m, arena, c);
      FreeingStarts(m, arena, c);
      assert m[c + SIZE] == arena.blocks[c].size;
      d, links, cur := arena.(blocks := Marked(arena.blocks, c, true)), arena.links, c;
      if mem[c + PREV] != 0 {
        var prv := c - mem[c + PREV];
        ListWordTells(m, m, d, links, c, prv);
        ghost var k :| 0 < k < |links| - 1 && links[k] == prv;
        HeaderApart(m, d, prv);
        assert m[prv + SIZE] == d.blocks[prv].size;
        Absorb(prv, prv, mem[c + SIZE], m, d, links, c, k);
        WithoutMember(links, k);
        d, links, cur := Absorbed(d, prv), links[..k] + links[k + 1..], prv;
      } else {
        WithoutStranger(links, c);
      }
    }

    /** Merges the block being freed with a free block after it. */
    method MergeAfter(cur: int, ghost m: seq<int>, ghost d0: Arena, ghost links0: seq<int>)
      returns (ghost d: Arena, ghost links: seq<int>)
      requires Freeing(m, mem[..], d0, links0, cur)
      requires Next(d0.blocks, cur) != cur && (Next(d0.blocks, cur) in d0.blocks || Next(d0.blocks, cur) == d0.last)
      modifies mem
      ensures Freeing(m, mem[..], d, links, cur)
      ensures d == if FreeAt(d0.blocks, Next(d0.blocks, cur)) then Absorbed(d0, cur) else d0
      ensures links == if FreeAt(d0.blocks, Next(d0.blocks, cur)) then Without(links0, Next(d0.blocks, cur)) else links0
    {
      d, links := d0, links0;
      ghost var n := Next(d0.blocks, cur);
      HeaderApart(mem[..], d0, cur);
      assert mem[..][cur + SIZE] == d0.blocks[cur].size;
      ListWordTells(m, mem[..], d0, links0, cur, n);
      var nxt := cur + mem[cur + SIZE];
      if mem[nxt + FNEXT] != 0 {
        ghost var k :| 0 < k < |links| - 1 && links[k] == nxt;
        assert mem[..][nxt + SIZE] == d.blocks[nxt].size;
        Absorb(nxt, cur, mem[nxt + SIZE], m, d, links, cur, k);
        WithoutMember(links, k);
        d, links := Absorbed(d, cur), links[..k] + links[k + 1..];
      }
    }

    /** The words of `Deallocate`, with the arena they end in. */
    method FreeWordsOf(c: int)
      requires Holds(mem[..], arena) && IsLive(arena, c) && header == arena.first
      modifies mem
      ensures Holds(mem[..], Release(arena, c))
      ensures PayloadsKept(old(mem[..]), mem[..], Release(arena, c))
    {
      hide Holds, Freeing, Tiled, Fused, Marked, MergeStart, Without, WellFormed, PayloadsKept, Coalesced, Laid, Sound,
        Chained, TaggedBut, Next;
      ghost var m := mem[..];
      HoldsReleasable(m, arena, c);
      var cur, d0, links0 := MergeBefore(c, m);
      ReleaseSoFar(arena, c, d0, links0, cur);
      var d, links := MergeAfter(cur, m, d0, links0);
      assert d == arena.(blocks := Merged(arena.blocks, c));
      PutAtHead(cur, m, d, links);
      assert Linked(d, links, cur) == Release(arena, c);
    }

    /** Frees the live block whose payload is at word offset `offset`. */
    method Deallocate(offset: int) returns (size: int)
      requires Valid() && IsLive(arena, offset - BLOCK)
      modifies this, mem
      ensures Valid()
      ensures WellFormed(old(arena)) && arena == Release(old(arena), offset - BLOCK)
      ensures size == old(arena).blocks[offset - BLOCK].size && avail == old(avail) + size
      ensures PayloadsKept(old(mem[..]), mem[..], arena)
    {
      var cur := offset - BLOCK;
      HeaderApart(mem[..], arena, cur);
      assert mem[..][cur + SIZE] == arena.blocks[cur].size;
      ReleaseReturnsItsBlock(arena, cur);
      size := mem[cur + SIZE];
      avail := avail + size;
      FreeWordsOf(cur);
      arena := Release(arena, cur);
    }
  }
}
