/** The pager as an abstract disk, and the bounded LRU page cache above it. */
module BufferPool {
  import opened Bytes

  /** A zero-default page file. `numPages` is one past the highest page ever written. */
  class Pager {
    var pages: map<nat, seq<byte>>
    var numPages: nat

    ghost predicate Valid()
      reads this
    {
      forall n | n in pages :: n < numPages && |pages[n]| == PAGE_SIZE
    }

    ghost function Page(n: nat): (p: seq<byte>)
      reads this
    {
      if n in pages then pages[n] else ZERO_PAGE
    }

    /** A file that does not exist yet. */
    constructor ()
      ensures Valid() && pages == map[] && numPages == 0
    {
      pages, numPages := map[], 0;
    }

    method ReadPage(n: nat, buf: array<byte>)
      requires Valid() && buf.Length == PAGE_SIZE
      modifies buf
      ensures buf[..] == Page(n)
    {
      if n in pages {
        forall i | 0 <= i < PAGE_SIZE { buf[i] := pages[n][i]; }
      } else {
        forall i | 0 <= i < PAGE_SIZE { buf[i] := 0; }
      }
    }

    method WritePage(n: nat, buf: array<byte>)
      requires Valid() && buf.Length == PAGE_SIZE
      modifies this
      ensures Valid() && pages == old(pages)[n := buf[..]]
      ensures numPages == if n >= old(numPages) then n + 1 else old(numPages)
    {
      pages := pages[n := buf[..]];
      if n >= numPages { numPages := n + 1; }
    }
  }

  /** A cached page: its number is the key under which the pool keeps it. */
  datatype PageEntry = PageEntry(buffer: array<byte>, dirty: bool)

  /** `order` lists each of `keys` exactly once. */
  ghost predicate Lists(order: seq<nat>, keys: set<nat>) {
    && (forall i, j | 0 <= i < j < |order| :: order[i] != order[j])
    && (forall p :: p in keys <==> p in order)
  }

  /** `p` is among the first `n` of `order`. */
  ghost predicate Within(order: seq<nat>, p: nat, n: nat) {
    exists i :: 0 <= i < n && i < |order| && order[i] == p
  }

  /** The pages of the disk once entry `q` of `cache` is written back, if it has to be. */
  ghost function Extended(numPages: nat, q: nat, cache: map<nat, PageEntry>): nat {
    if q in cache && cache[q].dirty && q >= numPages then q + 1 else numPages
  }

  /** The disk has not grown, or it ends with a page that is dirty in the pool. */
  ghost predicate EndsAtDirty(before: nat, cache: map<nat, PageEntry>, after: nat) {
    after == before || exists p :: p in cache && cache[p].dirty && after == p + 1
  }

  lemma NoneWritten(numPages: nat, cache: map<nat, PageEntry>)
    ensures EndsAtDirty(numPages, cache, numPages)
  {
  }

  lemma OneWritten(before: nat, cache: map<nat, PageEntry>, after: nat, q: nat)
    requires EndsAtDirty(before, cache, after)
    ensures EndsAtDirty(before, cache, Extended(after, q, cache))
  {
  }

  /**
   * The recency order after page `p` was asked for: `p` first, the others in their order, without the last of a full
   * pool if `p` was not cached.
   */
  ghost predicate Refreshed(before: seq<nat>, p: nat, max: nat, after: seq<nat>) {
    if p in before then exists i :: 0 <= i < |before| && before[i] == p && after == [p] + before[..i] + before[i + 1..]
    else after == [p] + if |before| < max || before == [] then before else before[..|before| - 1]
  }

  lemma FrontListed(order: seq<nat>, keys: set<nat>, i: nat)
    requires Lists(order, keys) && i < |order|
    ensures var moved := [order[i]] + order[..i] + order[i + 1..];
            Lists(moved, keys) && |moved| == |order|
            && Within(moved, order[i], 1)
            && forall q, n: nat :: Within(order, q, n) ==> Within(moved, q, n + 1)
  {
    var moved := [order[i]] + order[..i] + order[i + 1..];
    forall j | 0 <= j < |order|
      ensures order[j] == moved[if j < i then j + 1 else if j == i then 0 else j]
    {
    }
    forall q, n: nat | Within(order, q, n)
      ensures Within(moved, q, n + 1)
    {
      var j :| 0 <= j < n && j < |order| && order[j] == q;
      assert moved[if j < i then j + 1 else if j == i then 0 else j] == q;
    }
    assert moved[0] == order[i];
  }

  lemma LastDropped(order: seq<nat>, keys: set<nat>)
    requires Lists(order, keys) && order != []
    ensures Lists(order[..|order| - 1], keys - {order[|order| - 1]}) && order[|order| - 1] in keys
    ensures forall q, n: nat :: Within(order, q, n) && n < |order|
              ==> Within(order[..|order| - 1], q, n) && q != order[|order| - 1]
  {
  }

  lemma FrontAdded(order: seq<nat>, keys: set<nat>, p: nat)
    requires Lists(order, keys) && p !in keys
    ensures Lists([p] + order, keys + {p}) && Within([p] + order, p, 1)
    ensures forall q, n: nat :: Within(order, q, n) ==> Within([p] + order, q, n + 1)
  {
    assert ([p] + order)[0] == p;
    forall q, n: nat | Within(order, q, n)
      ensures Within([p] + order, q, n + 1)
    {
      var j :| 0 <= j < n && j < |order| && order[j] == q;
      assert ([p] + order)[j + 1] == q;
    }
  }

  /** The heap-independent part of the pool invariant. */
  ghost predicate Layout(lru: seq<nat>, cache: map<nat, PageEntry>, max: nat, next: nat, repr: set<object>) {
    && 1 <= max && |lru| <= max && Lists(lru, cache.Keys)
    && (forall p | p in cache ::
          p < next && cache[p].buffer in repr && cache[p].buffer.Length == PAGE_SIZE)
    && (forall p, q | p in cache && q in cache && p != q :: cache[p].buffer != cache[q].buffer)
  }

  lemma EntryAdded(lru: seq<nat>, cache: map<nat, PageEntry>, max: nat, next: nat, repr: set<object>,
                   p: nat, buf: array<byte>)
    requires Layout(lru, cache, max, next, repr)
    requires p !in cache && |lru| < max && p < next && buf !in repr && buf.Length == PAGE_SIZE
    ensures Layout([p] + lru, cache[p := PageEntry(buf, false)], max, next, repr + {buf})
  {
    FrontAdded(lru, cache.Keys, p);
    assert cache[p := PageEntry(buf, false)].Keys == cache.Keys + {p};
  }

  lemma EntryMarked(lru: seq<nat>, cache: map<nat, PageEntry>, max: nat, next: nat, repr: set<object>, p: nat)
    requires Layout(lru, cache, max, next, repr) && p in cache
    ensures Layout(lru, cache[p := cache[p].(dirty := true)], max, next, repr)
  {
    assert cache[p := cache[p].(dirty := true)].Keys == cache.Keys;
  }

  lemma LastEntryRemoved(lru: seq<nat>, cache: map<nat, PageEntry>, max: nat, next: nat, repr: set<object>)
    requires Layout(lru, cache, max, next, repr) && lru != []
    ensures Layout(lru[..|lru| - 1], cache - {lru[|lru| - 1]}, max, next, repr)
  {
    LastDropped(lru, cache.Keys);
    assert (cache - {lru[|lru| - 1]}).Keys == cache.Keys - {lru[|lru| - 1]};
  }

  /**
   * A note beside a pool, for proofs only: pages someone keeps an eye on, and what the disk may still hold of them
   * while their latest version has not been written back.
   */
  class Watch {
    ghost var pages: set<nat>
    ghost var past: iset<seq<byte>>
  }

  /** `lru` lists the cached page numbers, most recently used first. */
  class BufferPool {
    const pager: Pager
    const maxPages: nat
    ghost const watch: Watch
    var lru: seq<nat>
    var cache: map<nat, PageEntry>
    var nextPageId: nat
    /** Every page ever asked for. */
    ghost var touched: set<nat>
    /** The pages marked dirty and not written back since, by an eviction or a flush. */
    ghost var unwritten: set<nat>
    /** How often a page has been asked for. */
    ghost var fetches: nat
    ghost var Repr: set<object>

    ghost predicate Shape()
      reads this, Repr
    {
      && this in Repr && pager in Repr && pager.Valid()
      && pager.numPages <= nextPageId && (forall p | p in touched :: p < nextPageId)
      && Layout(lru, cache, maxPages, nextPageId, Repr)
    }

    /** What a reader of page `p` would see. */
    ghost function Contents(p: nat): (c: seq<byte>)
      requires Shape()
      reads this, Repr
      ensures |c| == PAGE_SIZE
    {
      if p in cache then cache[p].buffer[..] else pager.Page(p)
    }

    /** The plain page map the pool stands for. */
    ghost function View(): (v: imap<nat, seq<byte>>)
      requires Shape()
      reads this, Repr
      ensures forall p: nat :: p in v && |v[p]| == PAGE_SIZE
    {
      imap p: nat :: Contents(p)
    }

    /**
     * Nothing cached would be lost by an eviction, except possibly on the pages in `loose`: those have been written
     * through a raw buffer and not been marked dirty yet. The disk has the latest version of every other page that is
     * not `unwritten`.
     */
    ghost predicate Sound(loose: set<nat>)
      reads this, Repr, watch
    {
      && Shape() && watch !in Repr && Watched(loose)
      && (forall p | p in unwritten :: p in cache && cache[p].dirty)
      && (forall p | p in cache :: p in unwritten || p in loose || cache[p].buffer[..] == pager.Page(p))
    }

    /** Of a watched page whose latest version has not been written back, the disk has a past one. */
    ghost predicate Watched(loose: set<nat>)
      reads this, Repr, watch
      requires Shape()
    {
      forall p | p in watch.pages :: p < nextPageId && (p in loose || p !in unwritten || pager.Page(p) in watch.past)
    }

    /** `p` is on disk already, or will be written by the next flush. */
    ghost predicate Kept(p: nat)
      reads this, Repr
      requires Shape()
    {
      p < pager.numPages || (p in cache && cache[p].dirty)
    }

    /** The last page id handed out is kept, so the flushed file reaches up to the allocator. */
    ghost predicate Backed()
      reads this, Repr
      requires Shape()
    {
      nextPageId > 0 ==> Kept(nextPageId - 1)
    }

    /** The disk has what the pool has for page `p`, and the file reaches that far. */
    ghost predicate Flushed(p: nat)
      reads this, Repr
      requires Shape()
    {
      pager.Page(p) == Contents(p) && (p in cache && cache[p].dirty ==> p < pager.numPages)
    }

    constructor (pager: Pager, max: nat)
      requires pager.Valid() && 1 <= max
      ensures this.pager == pager && maxPages == max
      ensures Sound({}) && fresh(Repr - {pager}) && fresh(watch) && watch.pages == {} && unwritten == {}
      ensures nextPageId == pager.numPages && lru == [] && cache == map[]
      ensures forall p: nat :: View()[p] == pager.Page(p)
    {
      this.pager, maxPages := pager, max;
      lru, cache := [], map[];
      nextPageId, touched, unwritten, fetches := pager.numPages, {}, {}, 0;
      Repr := {this, pager};
      ghost var w := new Watch;
      w.pages := {};
      watch := w;
    }

    method GetPage(p: nat, ghost loose: set<nat>) returns (buf: array<byte>)
      requires Sound(loose)
      requires p in cache || forall q | q in loose :: Within(lru, q, maxPages - 1)
      modifies Repr
      ensures Sound(loose) && fresh(Repr - old(Repr))
      ensures View() == old(View())
      ensures p in cache && buf == cache[p].buffer && buf.Length == PAGE_SIZE
      ensures touched == old(touched) + {p} && fetches == old(fetches) + 1
      ensures forall q: nat :: pager.Page(q) == old(pager.Page(q)) || pager.Page(q) == old(View())[q]
      ensures pager.Page(p) == old(pager.Page(p)) && (p in unwritten <==> p in old(unwritten))
      ensures buf in Repr && this in Repr
      ensures nextPageId == if p >= old(nextPageId) then p + 1 else old(nextPageId)
      ensures Refreshed(old(lru), p, maxPages, lru) && Within(lru, p, 1)
      ensures forall q, n: nat :: Within(old(lru), q, n) && n < maxPages ==> Within(lru, q, n + 1)
      ensures forall q :: q in cache && q in old(cache) ==> cache[q] == old(cache[q])
      ensures if p in old(cache) then cache == old(cache) else !cache[p].dirty
      ensures pager.numPages == if p in old(cache) || |old(lru)| < maxPages then old(pager.numPages)
                                else Extended(old(pager.numPages), old(lru)[|old(lru)| - 1], old(cache))
      ensures forall q :: old(Kept(q)) ==> Kept(q)
    {
      hide Within, BufferPool.View, Extended;
      KeepAllocatorBeyond(p, loose);
      if p in cache {
        MoveToFront(p, loose);
      } else {
        FetchMissing(p, loose);
      }
      return cache[p].buffer;
    }

    /** The allocator stays beyond every page ever asked for. */
    method KeepAllocatorBeyond(p: nat, ghost loose: set<nat>)
      requires Sound(loose)
      modifies this`nextPageId, this`touched, this`fetches
      ensures Sound(loose) && View() == old(View())
      ensures nextPageId == (if p >= old(nextPageId) then p + 1 else old(nextPageId))
      ensures touched == old(touched) + {p} && fetches == old(fetches) + 1
    {
      if p >= nextPageId {
        nextPageId := p + 1;
      }
      touched, fetches := touched + {p}, fetches + 1;
      assert forall r: nat :: Contents(r) == old(Contents(r));
    }

    /** The miss path of `GetPage`: make room if the pool is full, then read the page. */
    method FetchMissing(p: nat, ghost loose: set<nat>)
      requires Sound(loose) && p !in cache && p < nextPageId
      requires forall q | q in loose :: Within(lru, q, maxPages - 1)
      modifies this`lru, this`cache, this`unwritten, this`Repr, pager
      ensures Sound(loose) && fresh(Repr - old(Repr)) && old(Repr) <= Repr
      ensures View() == old(View())
      ensures forall q: nat :: pager.Page(q) == old(pager.Page(q)) || pager.Page(q) == old(View())[q]
      ensures pager.Page(p) == old(pager.Page(p)) && (p in unwritten <==> p in old(unwritten))
      ensures p in cache && Within(lru, p, 1) && !cache[p].dirty
      ensures |old(lru)| < maxPages ==> lru == [p] + old(lru) && pager.numPages == old(pager.numPages)
      ensures |old(lru)| >= maxPages ==>
                var last := old(lru)[|old(lru)| - 1];
                && lru == [p] + old(lru)[..|old(lru)| - 1]
                && pager.numPages == Extended(old(pager.numPages), last, old(cache))
      ensures forall q, n: nat :: Within(old(lru), q, n) && n < maxPages ==> Within(lru, q, n + 1)
      ensures forall q :: q in cache && q in old(cache) ==> cache[q] == old(cache[q])
      ensures forall q :: old(Kept(q)) ==> Kept(q)
    {
      hide Lists, Within, Extended;
      if |lru| >= maxPages {
        LastDropped(lru, cache.Keys);
        EvictOldest(loose);
      }
      Load(p, loose);
    }

    /** `lru.splice`: the entry keeps its buffer. */
    method MoveToFront(p: nat, ghost loose: set<nat>)
      requires Sound(loose) && p in cache
      modifies this`lru
      ensures Sound(loose) && View() == old(View())
      ensures Within(lru, p, 1) && |lru| == |old(lru)|
      ensures exists i :: 0 <= i < |old(lru)| && old(lru)[i] == p && lru == [p] + old(lru)[..i] + old(lru)[i + 1..]
      ensures forall q, n: nat :: Within(old(lru), q, n) ==> Within(lru, q, n + 1)
    {
      var i :| 0 <= i < |lru| && lru[i] == p;
      FrontListed(lru, cache.Keys, i);
      lru := [p] + lru[..i] + lru[i + 1..];
      assert forall r: nat :: Contents(r) == old(Contents(r));
    }

    /** Writes the entry of page `q` to disk if it is dirty. */
    method WriteBack(q: nat, ghost loose: set<nat>)
      requires Sound(loose) && q in cache && q !in loose
      modifies pager, this`unwritten
      ensures Sound(loose) && View() == old(View()) && unwritten == old(unwritten) - {q}
      ensures forall r: nat | r != q :: pager.Page(r) == old(pager.Page(r))
      ensures pager.Page(q) == old(View())[q]
      ensures pager.numPages == Extended(old(pager.numPages), q, cache)
      ensures Flushed(q) && forall r | old(Flushed(r)) :: Flushed(r)
      ensures old(pager.numPages) <= pager.numPages
    {
      if cache[q].dirty {
        pager.WritePage(q, cache[q].buffer);
        unwritten := unwritten - {q};
        assert forall r: nat :: Contents(r) == old(Contents(r));
      }
    }

    /** Drops the least recently used entry, after writing it back if it is dirty. */
    method EvictOldest(ghost loose: set<nat>)
      requires Sound(loose) && lru != [] && lru[|lru| - 1] !in loose
      modifies this`lru, this`cache, this`unwritten, pager
      ensures Sound(loose) && View() == old(View()) && unwritten == old(unwritten) - {old(lru)[|old(lru)| - 1]}
      ensures forall r: nat | r != old(lru)[|old(lru)| - 1] :: pager.Page(r) == old(pager.Page(r))
      ensures pager.Page(old(lru)[|old(lru)| - 1]) == old(View())[old(lru)[|old(lru)| - 1]]
      ensures pager.numPages == Extended(old(pager.numPages), old(lru)[|old(lru)| - 1], old(cache))
      ensures lru == old(lru)[..|old(lru)| - 1] && cache == old(cache) - {old(lru)[|old(lru)| - 1]}
      ensures forall q, n: nat :: Within(old(lru), q, n) && n < |old(lru)| ==> Within(lru, q, n)
      ensures forall q :: old(Kept(q)) ==> Kept(q)
    {
      hide Lists, Within, BufferPool.View;
      var q := lru[|lru| - 1];
      LastDropped(lru, cache.Keys);
      WriteBack(q, loose);
      Forget(q, loose);
    }

    /** Erases the entry of the last page of the list, whose contents the disk has. */
    method Forget(q: nat, ghost loose: set<nat>)
      requires Sound(loose) && lru != [] && lru[|lru| - 1] == q && cache[q].buffer[..] == pager.Page(q)
      requires q !in unwritten
      modifies this`lru, this`cache
      ensures Sound(loose) && View() == old(View())
      ensures lru == old(lru)[..|old(lru)| - 1] && cache == old(cache) - {q}
    {
      LastEntryRemoved(lru, cache, maxPages, nextPageId, Repr);
      cache := cache - {q};
      lru := lru[..|lru| - 1];
      assert forall r: nat :: Contents(r) == old(Contents(r));
    }

    /** Reads page `p` into a fresh clean entry at the front. */
    method Load(p: nat, ghost loose: set<nat>)
      requires Sound(loose) && p !in cache && |lru| < maxPages && p < nextPageId
      modifies this`lru, this`cache, this`Repr
      ensures Sound(loose) && View() == old(View())
      ensures lru == [p] + old(lru)
      ensures Within(lru, p, 1) && forall q, n: nat :: Within(old(lru), q, n) ==> Within(lru, q, n + 1)
      ensures p in cache && cache == old(cache)[p := PageEntry(cache[p].buffer, false)]
      ensures Repr == old(Repr) + {cache[p].buffer} && fresh(cache[p].buffer)
    {
      var buf := new byte[PAGE_SIZE];
      pager.ReadPage(p, buf);
      Admit(p, buf, loose);
    }

    method Admit(p: nat, buf: array<byte>, ghost loose: set<nat>)
      requires Sound(loose) && p !in cache && |lru| < maxPages && p < nextPageId
      requires buf !in Repr && buf.Length == PAGE_SIZE && buf[..] == pager.Page(p)
      modifies this`lru, this`cache, this`Repr
      ensures Sound(loose) && View() == old(View())
      ensures lru == [p] + old(lru)
      ensures Within(lru, p, 1) && forall q, n: nat :: Within(old(lru), q, n) ==> Within(lru, q, n + 1)
      ensures cache == old(cache)[p := PageEntry(buf, false)] && Repr == old(Repr) + {buf}
    {
      EntryAdded(lru, cache, maxPages, nextPageId, Repr, p, buf);
      FrontAdded(lru, cache.Keys, p);
      lru := [p] + lru;
      cache := cache[p := PageEntry(buf, false)];
      Repr := Repr + {buf};
      assert forall r: nat :: Contents(r) == old(Contents(r));
    }

    method MarkDirty(p: nat, ghost loose: set<nat>)
      requires Sound(loose) && p in cache
      requires p in watch.pages ==> pager.Page(p) in watch.past
      modifies this`cache, this`unwritten
      ensures Sound(loose - {p}) && View() == old(View()) && unwritten == old(unwritten) + {p}
      ensures cache == old(cache)[p := old(cache[p]).(dirty := true)]
      ensures Kept(p) && forall q :: old(Kept(q)) ==> Kept(q)
    {
      hide Layout;
      EntryMarked(lru, cache, maxPages, nextPageId, Repr, p);
      cache := cache[p := cache[p].(dirty := true)];
      unwritten := unwritten + {p};
    }

    /** Never hands out a page that was asked for before, is cached, or is on disk. */
    method GetUnusedPageNum() returns (p: nat)
      requires Shape()
      modifies this`nextPageId
      ensures p == old(nextPageId) && nextPageId == p + 1
      ensures p !in touched && p !in cache && p !in pager.pages
    {
      p := nextPageId;
      nextPageId := nextPageId + 1;
    }

    /** Writes every dirty entry; the dirty flags stay set, as in the original. */
    method FlushAll()
      requires Sound({})
      modifies pager, this`unwritten
      ensures Sound({}) && View() == old(View()) && unwritten == {}
      ensures forall p: nat :: pager.Page(p) == View()[p]
      ensures forall p: nat :: old(Kept(p)) ==> p < pager.numPages
      ensures EndsAtDirty(old(pager.numPages), cache, pager.numPages)
    {
      hide EndsAtDirty, Extended, BufferPool.View, Flushed, Watched;
      NoneWritten(pager.numPages, cache);
      for i := 0 to |lru|
        invariant Sound({}) && View() == old(View())
        invariant EndsAtDirty(old(pager.numPages), cache, pager.numPages)
        invariant old(pager.numPages) <= pager.numPages
        invariant forall j | 0 <= j < i :: Flushed(lru[j]) && lru[j] !in unwritten
      {
        ghost var before := pager.numPages;
        WriteBack(lru[i], {});
        OneWritten(old(pager.numPages), cache, before, lru[i]);
      }
      AllFlushed();
    }

    lemma AllFlushed()
      requires Sound({}) && forall j | 0 <= j < |lru| :: Flushed(lru[j]) && lru[j] !in unwritten
      ensures unwritten == {}
      ensures forall p: nat :: pager.Page(p) == View()[p] && (p in cache && cache[p].dirty ==> p < pager.numPages)
    {
      hide Watched;
      forall p: nat
        ensures Flushed(p) && p !in unwritten
      {
        if p in cache {
          var j :| 0 <= j < |lru| && lru[j] == p;
        }
      }
    }
  }

  /**
   * Raw writes to the buffers of cached pages are writes to those pages of the view and to no others;
   * they leave the pages loose until they are marked dirty.
   */
  twostate lemma BuffersWritten(pool: BufferPool, new ps: set<nat>, new loose: set<nat>)
    requires old(pool.Sound(loose)) && ps <= old(pool.cache.Keys)
    requires pool.lru == old(pool.lru) && pool.cache == old(pool.cache) && pool.Repr == old(pool.Repr)
    requires pool.nextPageId == old(pool.nextPageId) && pool.touched == old(pool.touched)
    requires pool.unwritten == old(pool.unwritten) && unchanged(pool.watch)
    requires pool.pager.pages == old(pool.pager.pages) && pool.pager.numPages == old(pool.pager.numPages)
    requires forall q | q in pool.cache && q !in ps :: pool.cache[q].buffer[..] == old(pool.cache[q].buffer[..])
    ensures pool.Sound(loose + ps)
    ensures forall r :: old(pool.Kept(r)) ==> pool.Kept(r)
    ensures forall q: nat | q !in ps :: pool.View()[q] == old(pool.View())[q]
    ensures forall q: nat | q in ps :: pool.View()[q] == pool.cache[q].buffer[..]
  {
    forall q: nat | q !in ps
      ensures pool.Contents(q) == old(pool.Contents(q))
    {
    }
  }
}
