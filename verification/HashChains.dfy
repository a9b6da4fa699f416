/** The LZ77 encoder's hash chains in circular buffers: which earlier positions they lead to. */
module HashChains {
  import opened Bits
  import opened Lz77

  const HASH_NUM_VALUES := 65536

  // ---- zero runs ----

  /** The number of zero bytes at pos, up to limit of them and not past end. */
  function ZeroRun(data: seq<Byte>, end: nat, pos: nat, limit: nat): (r: nat)
    requires end <= |data|
    ensures r <= limit && (r > 0 ==> pos + r <= end)
    decreases limit
  {
    if limit == 0 || pos >= end || data[pos] != 0 then 0 else 1 + ZeroRun(data, end, pos + 1, limit - 1)
  }

  lemma {:induction false} ZeroRunZeros(data: seq<Byte>, end: nat, pos: nat, limit: nat)
    requires end <= |data|
    ensures forall k :: pos <= k < pos + ZeroRun(data, end, pos, limit) ==> data[k] == 0
    ensures var z := ZeroRun(data, end, pos, limit);
            z == limit || pos + z >= end || data[pos + z] != 0
    decreases limit
  {
    if !(limit == 0 || pos >= end || data[pos] != 0) { ZeroRunZeros(data, end, pos + 1, limit - 1); }
  }

  /** A run of zeros that cannot be longer has that length. */
  lemma {:induction false} ZeroRunIs(data: seq<Byte>, end: nat, pos: nat, limit: nat, z: nat)
    requires end <= |data| && z <= limit && (z > 0 ==> pos + z <= end)
    requires forall k :: pos <= k < pos + z ==> data[k] == 0
    requires z == limit || pos + z >= end || data[pos + z] != 0
    ensures ZeroRun(data, end, pos, limit) == z
    decreases limit
  {
    if z > 0 { ZeroRunIs(data, end, pos + 1, limit - 1, z - 1); }
  }

  method CountZeros(data: seq<Byte>, size: nat, pos: nat) returns (r: nat)
    requires pos <= size <= |data|
    ensures r == ZeroRun(data, size, pos, MAX_LENGTH)
  {
    var end := pos + MAX_LENGTH;
    if end > size { end := size; }
    r := 0;
    while pos + r != end && data[pos + r] == 0
      invariant pos + r <= end && forall k :: pos <= k < pos + r ==> data[k] == 0
      decreases end - r
    {
      r := r + 1;
    }
    ZeroRunIs(data, size, pos, MAX_LENGTH, r);
  }

  /** The hash of three bytes; near the end, of those that are left. */
  function GetHash(data: seq<Byte>, size: nat, pos: nat): (r: nat)
    requires size <= |data|
    ensures r < HASH_NUM_VALUES
  {
    if pos + 2 < size then
      ((data[pos] as bv16) ^ ((data[pos + 1] as bv16) << 4) ^ ((data[pos + 2] as bv16) << 8)) as int
    else if pos >= size then 0
    else if size - pos == 1 then data[pos]
    else ((data[pos] as bv16) ^ ((data[pos + 1] as bv16) << 8)) as int
  }

  /** The key of the second chain: the run of zeros, kept only where the hash is 0. */
  function RunKey(data: seq<Byte>, end: nat, pos: nat): (r: nat)
    requires end <= |data|
    ensures r <= MAX_LENGTH
  {
    if GetHash(data, end, pos) == 0 then ZeroRun(data, end, pos, MAX_LENGTH) else 0
  }

  /** The run length kept while scanning: exact where it is not zero. */
  ghost predicate ZerosKnown(data: seq<Byte>, end: nat, pos: nat, numzeros: nat)
    requires end <= |data|
  {
    numzeros == 0 || numzeros == ZeroRun(data, end, pos, MAX_LENGTH)
  }

  /** The scan's update of the run length, moving on to pos or doing pos again. */
  method NextZeros(data: seq<Byte>, end: nat, pos: nat, hashval: nat, numzeros: nat) returns (r: nat)
    requires pos < end <= |data|
    requires ZerosKnown(data, end, pos, numzeros) || (pos > 0 && ZerosKnown(data, end, pos - 1, numzeros))
    ensures r == if hashval == 0 then ZeroRun(data, end, pos, MAX_LENGTH) else 0
  {
    hide ZeroRun;
    if hashval == 0 {
      if numzeros == 0 {
        r := CountZeros(data, end, pos);
      } else {
        r := numzeros;
        ZeroRunZeros(data, end, pos, MAX_LENGTH);
        if pos > 0 {
          ZeroRunZeros(data, end, pos - 1, MAX_LENGTH);
        }
        if pos + numzeros > end || data[pos + numzeros - 1] != 0 { r := r - 1; }
        if numzeros != ZeroRun(data, end, pos, MAX_LENGTH) || r != numzeros {
          ZeroRunIs(data, end, pos, MAX_LENGTH, r);
        }
      }
    } else {
      r := 0;
    }
  }

  // ---- heads and links ----

  /** No later position has the key of position q. */
  ghost predicate Newest(keys: seq<nat>, q: nat)
  {
    q < |keys| && forall k :: q < k < |keys| ==> keys[k] != keys[q]
  }

  /** Among the positions before p, fewer than size back, q is the nearest with its key. */
  ghost predicate Follows(keys: seq<nat>, q: nat, p: nat, size: nat)
  {
    q < p < |keys| && p - q < size && keys[q] == keys[p] && forall k :: q < k < p ==> keys[k] != keys[p]
  }

  /** The head of every key but a hidden one is where its newest position is, while that is still in the window. */
  ghost predicate HeadsLead(heads: seq<int>, keys: seq<nat>, size: nat, hidden: int)
  {
    forall q: nat :: Newest(keys, q) && |keys| <= q + size && keys[q] != hidden ==>
      keys[q] < |heads| && heads[keys[q]] == q % size
  }

  /** The link of every position in the window leads to the one before it with the same key. */
  ghost predicate LinksLead(links: seq<nat>, keys: seq<nat>, size: nat)
  {
    && |links| == size
    && forall q: nat, p: nat :: Follows(keys, q, p, size) && |keys| <= p + size ==> links[p % size] == q % size
  }

  lemma DivSplit(x: nat, size: nat)
    requires size > 0
    ensures x == (x / size) * size + x % size && 0 <= x % size < size
  {
  }

  lemma CircularDistance(pos: nat, p: nat, size: nat)
    requires size > 0 && 0 <= pos - p < size
    ensures var w, h := pos % size, p % size;
            p == pos - if h <= w then w - h else w - h + size
  {
    DivSplit(pos, size);
    DivSplit(p, size);
    QuotientGap(pos / size, p / size, size, pos % size, p % size);
  }

  lemma QuotientGap(q: nat, q2: nat, size: nat, a: nat, b: nat)
    requires a < size && b < size && 0 <= (q * size + a) - (q2 * size + b) < size
    ensures q * size == q2 * size + if b <= a then 0 else size
  {
    if q < q2 { MulStrict(size, q, q2); }
    if q2 < q {
      MulStrict(size, q2, q);
      if q2 + 1 < q { MulStrict(size, q2 + 1, q); }
    }
    var p := (q2 + 1) * size;
    assert p == q2 * size + size;
  }

  /** Positions that are less than a window apart have places of their own. */
  lemma OwnPlaces(pos: nat, p: nat, size: nat)
    requires size > 0 && 0 < pos - p < size
    ensures pos % size != p % size
  {
    CircularDistance(pos, p, size);
  }

  lemma HeadsInsert(heads: seq<int>, keys: seq<nat>, size: nat, key: nat)
    requires size > 0 && key < |heads| && HeadsLead(heads, keys, size, -1)
    ensures HeadsLead(heads[key := |keys| % size], keys + [key], size, -1)
  {
    var more := keys + [key];
    forall q: nat | Newest(more, q) && |more| <= q + size
      ensures more[q] < |heads| && heads[key := |keys| % size][more[q]] == q % size
    {
      if q < |keys| {
        assert more[|keys|] != more[q];
        assert forall k :: q < k < |keys| ==> keys[k] == more[k] != more[q];
        assert Newest(keys, q);
      }
    }
  }

  lemma LinksInsert(links: seq<nat>, heads: seq<int>, keys: seq<nat>, size: nat, key: nat)
    requires size > 0 && key < |heads| && HeadsLead(heads, keys, size, -1) && LinksLead(links, keys, size)
    requires heads[key] >= -1
    ensures LinksLead(if heads[key] == -1 then links else links[|keys| % size := heads[key]], keys + [key], size)
  {
    var n, more := |keys|, keys + [key];
    var after := if heads[key] == -1 then links else links[n % size := heads[key]];
    forall q: nat, p: nat | Follows(more, q, p, size) && |more| <= p + size ensures after[p % size] == q % size {
      if p == n {
        assert forall k :: q < k < n ==> keys[k] == more[k] != more[p];
        assert Newest(keys, q);
      } else {
        assert forall k :: q < k < p ==> keys[k] == more[k] != more[p];
        assert Follows(keys, q, p, size);
        OwnPlaces(n, p, size);
      }
    }
  }

  /** Once its head is cleared, the newest key is hidden. */
  lemma HeadsForget(heads: seq<int>, keys: seq<nat>, size: nat)
    requires keys != [] && keys[|keys| - 1] < |heads| && HeadsLead(heads, keys, size, -1)
    ensures HeadsLead(heads[keys[|keys| - 1] := -1], keys, size, keys[|keys| - 1])
  {
  }

  /** A position put at the front of its chain, for the first time or again after it was taken off. */
  lemma ChainInsert(heads: seq<int>, links: seq<nat>, keys: seq<nat>, size: nat, pos: nat, key: nat, again: bool)
    requires size > 0 && key < |heads| && heads[key] >= -1 && LinksLead(links, keys, size)
    requires if again then pos + 1 == |keys| && keys[pos] == key && heads[key] == -1 else pos == |keys|
    requires HeadsLead(heads, keys, size, if again then key else -1)
    ensures HeadsLead(heads[key := pos % size], keys[..pos] + [key], size, -1)
    ensures LinksLead(if heads[key] == -1 then links else links[pos % size := heads[key]], keys[..pos] + [key], size)
  {
    if again {
      assert keys[..pos] + [key] == keys;
      HeadsAgain(heads, keys, size);
    } else {
      assert keys[..pos] == keys;
      HeadsInsert(heads, keys, size, key);
      LinksInsert(links, heads, keys, size, key);
    }
  }

  /** Setting its head again brings it back. */
  lemma HeadsAgain(heads: seq<int>, keys: seq<nat>, size: nat)
    requires keys != [] && keys[|keys| - 1] < |heads| && HeadsLead(heads, keys, size, keys[|keys| - 1])
    requires size > 0
    ensures HeadsLead(heads[keys[|keys| - 1] := (|keys| - 1) % size], keys, size, -1)
  {
    var last := |keys| - 1;
    forall q: nat | Newest(keys, q) && |keys| <= q + size
      ensures keys[q] < |heads| && heads[keys[last] := last % size][keys[q]] == q % size
    {
      if q < last { assert keys[last] != keys[q]; }
    }
  }

  // ---- the hash ----

  class Hash {
    const windowsize: nat
    const head: array<int>
    const val: array<int>
    const chain: array<nat>
    const headz: array<int>
    const chainz: array<nat>
    const zeros: array<nat>
    /** For every circular position, the data position last put there, or -1. */
    ghost var at: seq<int>
    /** Positions 0 to count - 1 have been inserted, with these hashes and runs. */
    ghost var count: nat
    ghost var hashes: seq<nat>
    ghost var runs: seq<nat>
    /** The newest position has been taken off its heads, to be inserted again. */
    ghost var forgotten: bool

    ghost predicate Shape()
      reads this
    {
      && |at| == windowsize
      && head.Length == HASH_NUM_VALUES && headz.Length == MAX_LENGTH + 1
      && val.Length == chain.Length == chainz.Length == zeros.Length == windowsize
      && head != val && head != headz && val != headz
      && chain != chainz && chain != zeros && chainz != zeros
    }

    /** Heads and links lead to inserted positions only. */
    ghost predicate Linked()
      reads this, head, headz, chain, chainz
    {
      HeadsOk(at, head[..]) && HeadsOk(at, headz[..]) && LinksOk(at, chain[..]) && LinksOk(at, chainz[..])
    }

    /** The key hidden while the newest position is forgotten. */
    ghost function Hidden(keys: seq<nat>): int
      reads this
    {
      if forgotten && keys != [] then keys[|keys| - 1] else -1
    }

    /** The keys of the positions inserted; the heads of a forgotten one are empty. */
    ghost predicate Keyed()
      reads this, head, headz
    {
      && |hashes| == count && |runs| == count && head.Length == HASH_NUM_VALUES && headz.Length == MAX_LENGTH + 1
      && (forall p :: 0 <= p < count ==> hashes[p] < HASH_NUM_VALUES && runs[p] <= MAX_LENGTH)
      && (forgotten ==> count > 0 && head[hashes[count - 1]] == -1 && headz[runs[count - 1]] == -1)
    }

    /** The chains lead to every position that has the same hash, or run, and is still in the window. */
    ghost predicate Chained()
      reads this, head, headz, chain, chainz
    {
      && HeadsLead(head[..], hashes, windowsize, Hidden(hashes)) && LinksLead(chain[..], hashes, windowsize)
      && HeadsLead(headz[..], runs, windowsize, Hidden(runs)) && LinksLead(chainz[..], runs, windowsize)
    }

    ghost predicate Valid(data: seq<Byte>)
      reads this, head, val, headz, chain, chainz, zeros
    {
      && Shape() && WindowOk(at, windowsize, count) && Linked() && RunsOk(data, at, zeros[..])
      && WindowFull(at, windowsize, count) && Keyed() && Chained() && KeptAt(at, val[..], hashes) && KeptAt(at, zeros[..], runs)
    }

    constructor (windowsize: nat)
      ensures forall data :: Valid(data)
      ensures this.windowsize == windowsize && count == 0 && !forgotten
      ensures fresh(head) && fresh(val) && fresh(chain) && fresh(headz) && fresh(chainz) && fresh(zeros)
    {
      hide HeadsLead;
      hide LinksLead;
      hide WindowOk;
      hide WindowFull;
      hide HeadsOk;
      hide LinksOk;
      hide RunsOk;
      hide KeptAt;
      this.windowsize := windowsize;
      head := new int[HASH_NUM_VALUES](_ => -1);
      val := new int[windowsize](_ => -1);
      chain := new nat[windowsize](i => i);
      headz := new int[MAX_LENGTH + 1](_ => -1);
      chainz := new nat[windowsize](i => i);
      zeros := new nat[windowsize];
      at := seq(windowsize, _ => -1);
      count, hashes, runs, forgotten := 0, [], [], false;
      new;
      NothingChained(at, head[..], chain[..], windowsize);
      NothingChained(at, headz[..], chainz[..], windowsize);
      NothingKept(at, val[..]);
      NothingKept(at, zeros[..]);
    }

    method LinkHash(wpos: nat, hashval: nat)
      requires Shape() && wpos < windowsize && hashval < HASH_NUM_VALUES && (head[hashval] == -1 || head[hashval] >= 0)
      modifies head, val, chain
      ensures head[..] == old(head[..])[hashval := wpos] && val[..] == old(val[..])[wpos := hashval]
      ensures chain[..] == if old(head[hashval]) == -1 then old(chain[..]) else old(chain[..])[wpos := old(head[hashval])]
    {
      val[wpos] := hashval;
      if head[hashval] != -1 { chain[wpos] := head[hashval]; }
      head[hashval] := wpos;
    }

    method LinkZeros(wpos: nat, numzeros: nat)
      requires Shape() && wpos < windowsize && numzeros <= MAX_LENGTH && (headz[numzeros] == -1 || headz[numzeros] >= 0)
      modifies headz, chainz, zeros
      ensures headz[..] == old(headz[..])[numzeros := wpos] && zeros[..] == old(zeros[..])[wpos := numzeros]
      ensures chainz[..] == if old(headz[numzeros]) == -1 then old(chainz[..]) else old(chainz[..])[wpos := old(headz[numzeros])]
    {
      zeros[wpos] := numzeros;
      if headz[numzeros] != -1 { chainz[wpos] := headz[numzeros]; }
      headz[numzeros] := wpos;
    }

    /** Puts position pos at the front of its chains; a forgotten position is put there again. */
    method UpdateHashChain(data: seq<Byte>, pos: nat, hashval: nat, numzeros: nat)
      requires Valid(data) && windowsize > 0
      requires if forgotten then pos + 1 == count && hashes[pos] == hashval && runs[pos] == numzeros else pos == count
      requires hashval < HASH_NUM_VALUES && numzeros <= MAX_LENGTH && ZerosAt(data, pos, numzeros)
      modifies this, head, val, chain, headz, chainz, zeros
      ensures Valid(data) && !forgotten && count == pos + 1 && at[pos % windowsize] == pos
      ensures hashes == old(hashes)[..pos] + [hashval] && runs == old(runs)[..pos] + [numzeros]
    {
      hide HeadsLead;
      hide LinksLead;
      hide WindowOk;
      hide WindowFull;
      hide HeadsOk;
      hide LinksOk;
      hide ZerosAt;
      hide KeptAt;
      WindowMoves(at, windowsize, count, pos);
      var wpos := pos % windowsize;
      HeadNotBelow(at, head[..], hashval);
      HeadNotBelow(at, headz[..], numzeros);
      ChainInsert(head[..], chain[..], hashes, windowsize, pos, hashval, forgotten);
      ChainInsert(headz[..], chainz[..], runs, windowsize, pos, numzeros, forgotten);
      InsertedMore(at, head[..], chain[..], wpos, pos, hashval);
      InsertedMore(at, headz[..], chainz[..], wpos, pos, numzeros);
      KeptMore(at, val[..], hashes, windowsize, count, pos, hashval);
      KeptMore(at, zeros[..], runs, windowsize, count, pos, numzeros);
      at := at[wpos := pos];
      count, forgotten := pos + 1, false;
      hashes, runs := hashes[..pos] + [hashval], runs[..pos] + [numzeros];
      LinkHash(wpos, hashval);
      LinkZeros(wpos, numzeros);
    }

    /** Takes the newest position off its heads, since it is going to be inserted again. */
    method ForgetHeads(data: seq<Byte>, hashval: nat, numzeros: nat)
      requires Valid(data) && !forgotten && count > 0 && hashes[count - 1] == hashval && runs[count - 1] == numzeros
      modifies this`forgotten, head, headz
      ensures Valid(data) && forgotten
    {
      hide HeadsLead;
      hide LinksLead;
      hide WindowOk;
      hide WindowFull;
      hide HeadsOk;
      hide LinksOk;
      hide RunsOk;
      hide KeptAt;
      HeadsForget(head[..], hashes, windowsize);
      HeadsForget(headz[..], runs, windowsize);
      HeadCleared(at, head[..], hashval);
      HeadCleared(at, headz[..], numzeros);
      head[hashval] := -1;
      headz[numzeros] := -1;
      forgotten := true;
    }
  }

  /** Circular position w holds an inserted data position. */
  ghost predicate Inserted(at: seq<int>, w: int)
  {
    0 <= w < |at| && at[w] >= 0
  }

  ghost predicate HeadsOk(at: seq<int>, heads: seq<int>)
  {
    forall h {:trigger heads[h]} :: 0 <= h < |heads| ==> heads[h] == -1 || Inserted(at, heads[h])
  }

  /** A link that has never been set is its own index. */
  ghost predicate LinksOk(at: seq<int>, links: seq<nat>)
  {
    |links| == |at| &&
    forall w {:trigger links[w]} :: 0 <= w < |at| ==> if at[w] >= 0 then Inserted(at, links[w]) else links[w] == w
  }

  predicate ZerosAt(data: seq<Byte>, p: int, z: nat)
  {
    0 <= p && p + z <= |data| && forall k :: p <= k < p + z ==> data[k] == 0
  }

  /** The recorded runs really are zeros. */
  ghost predicate RunsOk(data: seq<Byte>, at: seq<int>, zeros: seq<nat>)
  {
    |zeros| == |at| && forall w :: 0 <= w < |at| && at[w] >= 0 ==> ZerosAt(data, at[w], zeros[w])
  }

  /** Each circular position holds the newest data position that maps to it. */
  ghost predicate WindowOk(at: seq<int>, size: nat, count: nat)
  {
    forall w :: 0 <= w < |at| && at[w] >= 0 ==> size > 0 && at[w] < count <= at[w] + size && at[w] % size == w
  }

  /** All positions of the window are there. */
  ghost predicate WindowFull(at: seq<int>, size: nat, count: nat)
  {
    forall p: nat {:trigger InWindow(p, size, count)} :: InWindow(p, size, count) && |at| == size ==> at[p % size] == p
  }

  ghost predicate InWindow(p: nat, size: nat, count: nat)
  {
    p < count <= p + size
  }

  /** Next to each position its key is recorded. */
  ghost predicate KeptAt(at: seq<int>, vals: seq<int>, keys: seq<nat>)
  {
    |vals| == |at| && forall w :: 0 <= w < |at| && at[w] >= 0 ==> at[w] < |keys| && vals[w] == keys[at[w]]
  }

  /** Empty chains. */
  lemma NothingChained(at: seq<int>, heads: seq<int>, links: seq<nat>, size: nat)
    requires |at| == |links| == size && (forall w :: 0 <= w < size ==> at[w] == -1 && links[w] == w)
    requires forall h :: 0 <= h < |heads| ==> heads[h] == -1
    ensures HeadsLead(heads, [], size, -1) && LinksLead(links, [], size)
    ensures HeadsOk(at, heads) && LinksOk(at, links) && WindowOk(at, size, 0) && WindowFull(at, size, 0)
  {
  }

  lemma NothingKept(at: seq<int>, vals: seq<int>)
    requires |vals| == |at| && forall w :: 0 <= w < |at| ==> at[w] == -1
    ensures KeptAt(at, vals, [])
    ensures forall data, zeros: seq<nat> :: |zeros| == |at| ==> RunsOk(data, at, zeros)
  {
  }

  lemma HeadNotBelow(at: seq<int>, heads: seq<int>, h: nat)
    requires HeadsOk(at, heads) && h < |heads|
    ensures heads[h] >= -1 && (heads[h] != -1 ==> Inserted(at, heads[h]))
  {
  }

  lemma HeadCleared(at: seq<int>, heads: seq<int>, h: nat)
    requires HeadsOk(at, heads) && h < |heads|
    ensures HeadsOk(at, heads[h := -1])
  {
  }

  lemma InsertedMore(at: seq<int>, heads: seq<int>, links: seq<nat>, wpos: nat, pos: nat, h: nat)
    requires wpos < |at| && h < |heads| && HeadsOk(at, heads) && LinksOk(at, links)
    ensures heads[h] >= -1 && HeadsOk(at[wpos := pos], heads[h := wpos])
    ensures LinksOk(at[wpos := pos], if heads[h] == -1 then links else links[wpos := heads[h]])
  {
    HeadNotBelow(at, heads, h);
  }

  lemma KeptMore(at: seq<int>, vals: seq<int>, keys: seq<nat>, size: nat, count: nat, pos: nat, key: nat)
    requires size > 0 && |at| == size && WindowOk(at, size, count) && KeptAt(at, vals, keys)
    requires |keys| == count && (pos == count || pos + 1 == count)
    ensures KeptAt(at[pos % size := pos], vals[pos % size := key], keys[..pos] + [key])
  {
    forall w | 0 <= w < size && w != pos % size && at[w] >= 0 ensures at[w] < pos {
    }
  }

  /** Storing pos at its circular position keeps the window the newest positions. */
  lemma WindowMoves(at: seq<int>, size: nat, count: nat, pos: nat)
    requires size > 0 && |at| == size && WindowOk(at, size, count) && WindowFull(at, size, count)
    requires pos == count || pos + 1 == count
    ensures pos % size < size
    ensures WindowOk(at[pos % size := pos], size, pos + 1) && WindowFull(at[pos % size := pos], size, pos + 1)
  {
    forall w | 0 <= w < size && w != pos % size && at[w] >= 0 ensures at[w] + size != pos {
      if at[w] + size == pos { OneRound(at[w], size); }
    }
    forall p: nat | InWindow(p, size, pos + 1) ensures at[pos % size := pos][p % size] == p {
      if p < pos {
        OwnPlaces(pos, p, size);
        assert InWindow(p, size, count);
      }
    }
  }

  lemma OneRound(p: nat, size: nat)
    requires size > 0
    ensures (p + size) % size == p % size
  {
    var q, r := p / size, p % size;
    assert p + size == (q + 1) * size + r;
    ModIs(p + size, q + 1, size, r);
  }

  lemma {:induction false} ModIs(x: nat, q: nat, size: nat, r: nat)
    requires size > 0 && r < size && x == q * size + r
    ensures x % size == r
    decreases q
  {
    var q', r' := x / size, x % size;
    assert x == q' * size + r';
    if q' < q { MulStrict(size, q', q); }
    if q < q' { MulStrict(size, q, q'); }
  }

}
