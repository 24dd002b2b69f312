/** The free-list buffer pool of server/mqtt/bytes/buffer.go. */
module Pool {
  import opened Bytes

  class Buffer {
    var buf: Slice
    var next: Buffer?

    constructor (none: Slice)
      ensures buf == none && next == null
    {
      buf, next := none, null;
    }
  }

  /** Two windows with no byte in common. */
  ghost predicate Apart(a: Slice, b: Slice) {
    a.arr != b.arr || a.off + a.len <= b.off || b.off + b.len <= a.off
  }

  /** Windows of size bytes each, no two of which share a byte. */
  ghost predicate Separate(windows: map<Buffer, Slice>, size: nat) {
    && (forall b :: b in windows ==> windows[b].Valid() && windows[b].len == size)
    && (forall a, b {:trigger Apart(windows[a], windows[b])} ::
          a in windows && b in windows && a != b ==> Apart(windows[a], windows[b]))
  }

  ghost function At(c: seq<Buffer>, i: nat): Buffer? {
    if i < |c| then c[i] else null
  }

  /** A buffer's next pointer, and its rank: in the free list, how many buffers from here to the end. */
  datatype Link = Link(next: Buffer?, rank: nat)

  /** The chain is what the next pointers lead through from free, to its end, in falling ranks;
      no buffer of it is held. */
  ghost predicate Linked(free: Buffer?, chain: seq<Buffer>, held: set<Buffer>, links: map<Buffer, Link>) {
    if chain == [] then free == null
    else
      && free == chain[0]
      && chain[0] in links && chain[0] !in held
      && links[chain[0]].rank == |chain|
      && Linked(links[chain[0]].next, chain[1..], held, links)
  }

  /** What there is to know of a pool's buffers: the free list in order, those handed out and not put
      back, the window and the link of every buffer ever made, and how often grow was called. */
  datatype Books = Books(chain: seq<Buffer>, held: set<Buffer>, windows: map<Buffer, Slice>,
                         links: map<Buffer, Link>, grows: nat)

  /** The fields of every buffer are as the books say. */
  ghost predicate Recorded(s: Books)
    requires s.windows.Keys == s.links.Keys
    reads s.windows.Keys
  {
    forall b {:trigger b.buf} {:trigger b.next} :: b in s.windows ==> b.buf == s.windows[b] && b.next == s.links[b].next
  }

  /** The free buffers have the windows of one array, in order. */
  ghost predicate Carved(s: Books, a: array<byte>, size: nat) {
    forall k :: 0 <= k < |s.chain| ==> s.chain[k] in s.windows && s.windows[s.chain[k]] == Window(a, k, size)
  }

  ghost predicate Sound(free: Buffer?, s: Books, size: nat) {
    && Linked(free, s.chain, s.held, s.links)
    && Separate(s.windows, size)
    && s.held <= s.windows.Keys == s.links.Keys
  }

  /** num buffers for each of k batches. */
  ghost function Times(k: nat, num: nat): nat {
    if k == 0 then 0 else Times(k - 1, num) + num
  }

  lemma {:induction false} TimesIsProduct(k: nat, num: nat)
    ensures Times(k, num) == k * num
  {
    if k > 0 {
      TimesIsProduct(k - 1, num);
    }
  }

  class Pool {
    var free: Buffer?
    var max: nat
    var num: nat
    var size: nat
    ghost var books: Books

    ghost predicate Valid()
      reads this, books.windows.Keys
    {
      && num > 0 && max == num * size
      && Sound(free, books, size)
      && Recorded(books)
      && |books.chain| + |books.held| == Times(books.grows, num) == |books.windows|
    }

    constructor (num: nat, size: nat)
      requires num > 0
      ensures Valid() && this.num == num && this.size == size
      ensures books.held == {} && books.grows == 1 && forall b :: b in books.windows ==> fresh(b)
    {
      this.num, this.size, max := num, size, num * size;
      free, books := null, Books([], {}, map[], map[], 0);
      new;
      ghost var _ := Grow();
    }

    /** A new batch of num buffers, carved out of one array, becomes the free list. */
    method Grow() returns (ghost a: array<byte>)
      requires Valid() && free == null
      modifies this`free, this`books
      ensures Valid() && free != null && fresh(free)
      ensures fresh(a) && a.Length == max && Carved(books, a, size)
      ensures |books.chain| == num && books.held == old(books.held) && books.grows == old(books.grows) + 1
      ensures forall b :: b in books.windows ==> b in old(books.windows) || fresh(b)
    {
      ghost var t;
      var first;
      first, t, a := NewBatch();
      Adopt(first, t);
    }

    /** Sets the free list, with books that are right about it. */
    method Adopt(first: Buffer, ghost t: Books)
      requires num > 0 && max == num * size && Sound(first, t, size) && Recorded(t)
      requires |t.chain| + |t.held| == Times(t.grows, num) == |t.windows|
      modifies this`free, this`books
      ensures Valid() && free == first && books == t
    {
      free := first;
      books := t;
    }

    /** The first buffer of a new batch, and the books with that batch as the free list. */
    method NewBatch() returns (first: Buffer, ghost t: Books, ghost a: array<byte>)
      requires Valid() && free == null
      ensures fresh(first) && Sound(first, t, size)
      ensures fresh(a) && a.Length == max && Carved(t, a, size)
      ensures Recorded(t)
      ensures forall b :: b in t.windows ==> b in books.windows || fresh(b)
      ensures |t.chain| == num && t.held == books.held && t.grows == books.grows + 1
      ensures |t.chain| + |t.held| == Times(t.grows, num) == |t.windows|
    {
      var buf := new byte[max];
      a := buf;
      ghost var added, links;
      var bs;
      bs, added, links := Carve(buf);
      SoundGrow(books, size, bs, added, links, buf);
      first := bs[0];
      t := books.(chain := bs, windows := books.windows + added, links := books.links + links,
                  grows := books.grows + 1);
      forall b | b in t.windows
        ensures b.buf == t.windows[b] && b.next == t.links[b].next
      {
        assert b in added || b in books.windows;
      }
    }

    /** The buffers of a batch, linked in order, each with its window of buf. */
    method Carve(buf: array<byte>)
      returns (bs: seq<Buffer>, ghost added: map<Buffer, Slice>, ghost batch: map<Buffer, Link>)
      requires num > 0 && max == num * size && buf.Length == max
      ensures |bs| == num && forall k :: 0 <= k < num ==> bs[k] in added && added[bs[k]] == Window(buf, k, size)
      ensures Sound(bs[0], Books(bs, {}, added, batch, 0), size)
      ensures |added| == num && forall b :: b in added ==> fresh(b) && added[b].arr == buf
      ensures forall b {:trigger b.buf} {:trigger b.next} :: b in added ==> b.buf == added[b] && b.next == batch[b].next
    {
      ghost var place;
      bs, place := MakeBuffers();
      LinkBuffers(buf, bs, place);
      added := map x | x in place :: Window(buf, place[x], size);
      batch := map x | x in place :: Link(At(bs, place[x] + 1), num - place[x]);
      BatchSound(buf, bs, place, added, batch, num, size);
      assert added.Keys == place.Keys;
    }

    /** The loop of grow: buffer k gets window k and points to buffer k + 1. */
    method LinkBuffers(buf: array<byte>, bs: seq<Buffer>, ghost place: map<Buffer, nat>)
      requires num > 0 && max == num * size && |bs| == num
      requires forall k :: 0 <= k < num ==> bs[k] in place && place[bs[k]] == k
      modifies bs
      ensures forall k {:trigger bs[k].next} {:trigger bs[k].buf} :: 0 <= k < num ==>
                bs[k].next == At(bs, k + 1) && bs[k].buf == Window(buf, k, size)
    {
      var b := bs[0];
      var i := 1;
      while i < num
        invariant 1 <= i <= num && b == bs[i - 1]
        invariant forall k {:trigger bs[k].next} {:trigger bs[k].buf} :: 0 <= k < i - 1 ==>
                    bs[k].next == At(bs, k + 1) && bs[k].buf == Window(buf, k, size)
      {
        WindowFits(i - 1, num, size);
        b.buf := Slice(buf, (i - 1) * size, size);
        b.next := bs[i];
        b := b.next;
        i := i + 1;
      }
      WindowFits(i - 1, num, size);
      b.buf := Slice(buf, (i - 1) * size, size);
      b.next := null;
    }

    /** `make([]Buffer, p.num)`. */
    method MakeBuffers() returns (bs: seq<Buffer>, ghost place: map<Buffer, nat>)
      requires num > 0
      ensures |bs| == num && forall k :: 0 <= k < num ==> bs[k] in place && place[bs[k]] == k
      ensures |place| == num && forall b :: b in place ==> fresh(b) && place[b] < num && bs[place[b]] == b
    {
      var none := new byte[0];
      bs, place := [], map[];
      while |bs| < num
        invariant |bs| <= num && forall k :: 0 <= k < |bs| ==> bs[k] in place && place[bs[k]] == k
        invariant |place| == |bs| && forall b :: b in place ==> fresh(b) && place[b] < |bs| && bs[place[b]] == b
      {
        var b := new Buffer(Slice(none, 0, 0));
        place := place[b := |bs|];
        bs := bs + [b];
      }
    }

    method Get() returns (b: Buffer)
      requires Valid()
      modifies this`free, this`books
      ensures Valid()
      ensures b !in old(books.held) && books.held == old(books.held) + {b}
      ensures b in books.windows && b.buf.len == size && forall h :: h in old(books.held) ==> Apart(b.buf, h.buf)
      ensures forall x :: x in books.windows ==> x in old(books.windows) || fresh(x)
      ensures if old(free) != null then
                b == old(free) && books.chain == old(books.chain)[1..] && books.grows == old(books.grows)
              else fresh(b) && |books.chain| == num - 1 && books.grows == old(books.grows) + 1
    {
      var p := free;
      if p == null {
        ghost var _ := Grow();
        p := free;
      }
      b := p;
      SoundTake(books, size);
      free := b.next;
      books := Took(books);
    }

    method Put(b: Buffer)
      requires Valid() && b in books.held
      modifies this`free, this`books, b`next
      ensures Valid()
      ensures books.chain == [b] + old(books.chain) && books.held == old(books.held) - {b}
      ensures books.grows == old(books.grows) && books.windows == old(books.windows)
    {
      SoundPut(b, free, books, size);
      ghost var t := Gave(b, free, books);
      b.next := free;
      free := b;
      books := t;
    }
  }

  // ---------------------------------------------------------------- the three operations

  /** After the first free buffer was handed out. */
  ghost function Took(s: Books): Books
    requires s.chain != []
  {
    s.(chain := s.chain[1..], held := s.held + {s.chain[0]})
  }

  /** After b was put back. */
  ghost function Gave(b: Buffer, free: Buffer?, s: Books): Books {
    s.(chain := [b] + s.chain, held := s.held - {b}, links := s.links[b := Link(free, |s.chain| + 1)])
  }

  lemma SoundTake(s: Books, size: nat)
    requires s.chain != [] && Sound(s.chain[0], s, size)
    ensures var b := s.chain[0];
            && b in s.windows && b in s.links && b !in s.held && s.windows[b].len == size
            && (forall h :: h in s.held ==> h in s.windows && Apart(s.windows[b], s.windows[h]))
            && Sound(s.links[b].next, Took(s), size)
            && |s.held + {b}| == |s.held| + 1
  {
    var b := s.chain[0];
    HoldHigher(s.links[b].next, s.chain[1..], s.held, s.links, b);
  }

  lemma SoundPut(b: Buffer, free: Buffer?, s: Books, size: nat)
    requires b in s.held && Sound(free, s, size)
    ensures b in s.links && b in s.windows
    ensures Sound(b, Gave(b, free, s), size)
    ensures |s.held - {b}| == |s.held| - 1
  {
    assert ([b] + s.chain)[1..] == s.chain;
    ReleaseHeld(free, s.chain, s.held, s.links, b, Link(free, |s.chain| + 1));
  }

  lemma SoundGrow(s: Books, size: nat, bs: seq<Buffer>, added: map<Buffer, Slice>, batch: map<Buffer, Link>,
                  a: array<byte>)
    requires Sound(null, s, size)
    requires bs != [] && Sound(bs[0], Books(bs, {}, added, batch, 0), size)
    requires added.Keys !! s.windows.Keys
    requires forall b :: b in added ==> added[b].arr == a
    requires forall b :: b in s.windows ==> s.windows[b].arr != a
    ensures s.chain == [] && bs[0] in batch
    ensures Sound(bs[0], s.(chain := bs, windows := s.windows + added, links := s.links + batch, grows := s.grows + 1),
                  size)
    ensures |s.windows + added| == |s.windows| + |added|
  {
    LinkedInUnion(bs[0], bs, s.held, s.links, batch);
    SeparateUnion(s.windows, added, size, a);
    assert (s.windows + added).Keys == s.windows.Keys + added.Keys;
    assert |s.windows.Keys + added.Keys| == |s.windows.Keys| + |added.Keys|;
  }

  // ---------------------------------------------------------------- the free list

  /** A buffer of higher rank than the whole chain is not in it, and can become held. */
  lemma {:induction false} HoldHigher(free: Buffer?, c: seq<Buffer>, held: set<Buffer>, links: map<Buffer, Link>,
                                      b: Buffer)
    requires Linked(free, c, held, links) && b in links && links[b].rank > |c|
    ensures Linked(free, c, held + {b}, links)
  {
    if c != [] {
      HoldHigher(links[c[0]].next, c[1..], held, links, b);
    }
  }

  /** A held buffer can be released and relinked without touching the chain. */
  lemma {:induction false} ReleaseHeld(free: Buffer?, c: seq<Buffer>, held: set<Buffer>, links: map<Buffer, Link>,
                                       b: Buffer, l: Link)
    requires Linked(free, c, held, links) && b in held
    ensures Linked(free, c, held - {b}, links[b := l])
  {
    if c != [] {
      ReleaseHeld(links[c[0]].next, c[1..], held, links, b, l);
    }
  }

  lemma {:induction false} LinkedInUnion(free: Buffer?, c: seq<Buffer>, held: set<Buffer>, links: map<Buffer, Link>,
                                         batch: map<Buffer, Link>)
    requires Linked(free, c, {}, batch)
    requires batch.Keys !! links.Keys && held <= links.Keys
    ensures Linked(free, c, held, links + batch)
  {
    if c != [] {
      LinkedInUnion(batch[c[0]].next, c[1..], held, links, batch);
    }
  }

  /** The free list never meets itself, and holds no buffer that is out. */
  lemma {:induction false} Acyclic(free: Buffer?, c: seq<Buffer>, held: set<Buffer>, links: map<Buffer, Link>)
    requires Linked(free, c, held, links)
    ensures forall i :: 0 <= i < |c| ==> c[i] in links && c[i] !in held && links[c[i]].rank == |c| - i
    ensures forall i, j :: 0 <= i < j < |c| ==> c[i] != c[j]
  {
    if c != [] {
      Acyclic(links[c[0]].next, c[1..], held, links);
      assert forall i :: 0 < i < |c| ==> c[i] == c[1..][i - 1];
    }
  }

  /** A fresh batch is linked from any of its buffers on. */
  lemma {:induction false} BatchLinked(bs: seq<Buffer>, place: map<Buffer, nat>, batch: map<Buffer, Link>, k: nat)
    requires k <= |bs| && batch.Keys == place.Keys
    requires forall i :: 0 <= i < |bs| ==> bs[i] in place && place[bs[i]] == i
    requires forall b :: b in place ==> place[b] < |bs| && batch[b] == Link(At(bs, place[b] + 1), |bs| - place[b])
    ensures Linked(At(bs, k), bs[k..], {}, batch)
    decreases |bs| - k
  {
    if k < |bs| {
      BatchLinked(bs, place, batch, k + 1);
      assert bs[k..][1..] == bs[k + 1..];
    }
  }

  // ---------------------------------------------------------------- windows

  /** The k-th window of a batch. */
  ghost function Window(a: array<byte>, k: nat, size: nat): Slice {
    Slice(a, k * size, size)
  }

  lemma WindowFits(k: nat, num: nat, size: nat)
    requires k < num
    ensures k * size + size <= num * size
  {
    assert (k + 1) * size <= num * size;
  }

  lemma BatchSound(a: array<byte>, bs: seq<Buffer>, place: map<Buffer, nat>,
                   added: map<Buffer, Slice>, batch: map<Buffer, Link>, num: nat, size: nat)
    requires |bs| == num > 0 && a.Length == num * size
    requires forall k :: 0 <= k < num ==> bs[k] in place && place[bs[k]] == k
    requires forall b :: b in place ==> place[b] < num && bs[place[b]] == b
    requires added == map x | x in place :: Window(a, place[x], size)
    requires batch == map x | x in place :: Link(At(bs, place[x] + 1), num - place[x])
    ensures Sound(bs[0], Books(bs, {}, added, batch, 0), size)
  {
    BatchLinked(bs, place, batch, 0);
    assert bs[0..] == bs;
    forall x | x in added
      ensures added[x].Valid()
    {
      WindowFits(place[x], num, size);
    }
    forall x, y | x in added && y in added && x != y
      ensures Apart(added[x], added[y])
    {
      var j, k := place[x], place[y];
      if j < k {
        WindowFits(j, k, size);
      } else {
        WindowFits(k, j, size);
      }
    }
  }

  /** Windows of a new array are apart from all earlier ones. */
  lemma SeparateUnion(before: map<Buffer, Slice>, added: map<Buffer, Slice>, size: nat, a: array<byte>)
    requires Separate(before, size) && Separate(added, size)
    requires forall b :: b in added ==> added[b].arr == a
    requires forall b :: b in before ==> before[b].arr != a
    ensures Separate(before + added, size)
  {
    var m := before + added;
    forall x, y | x in m && y in m && x != y
      ensures Apart(m[x], m[y])
    {
      assert x in added && y in added ==> Apart(added[x], added[y]);
      assert x in before && y in before ==> Apart(before[x], before[y]);
    }
  }
}
