/** Searching the hash chains for the longest match, and why nothing longer is missed. */
module MatchSearch {
  import opened Bits
  import opened Lz77
  import opened HashChains

  // ---- distances in the circular buffers ----

  /** The circular distance to an inserted position is its real distance. */
  lemma CandidateDistance(at: seq<int>, size: nat, pos: nat, h: nat)
    requires size > 0 && |at| == size && WindowOk(at, size, pos + 1) && Inserted(at, h)
    ensures var wpos := pos % size;
            at[h] == pos - if h <= wpos then wpos - h else wpos - h + size
  {
    CircularDistance(pos, at[h], size);
  }

  // ---- matches ----

  /** The longest common run of pos and the position offset before it, up to last. */
  ghost predicate Longest(data: seq<Byte>, pos: nat, offset: nat, last: nat, length: nat)
  {
    && 1 <= offset <= pos && pos + length <= last <= |data|
    && (forall k :: pos <= k < pos + length ==> data[k] == data[k - offset])
    && (pos + length == last || data[pos + length] != data[pos + length - offset])
  }

  /** The same, counted byte by byte. */
  ghost function CommonRun(data: seq<Byte>, i: nat, offset: nat, last: nat): nat
    requires 1 <= offset <= i <= last <= |data|
    decreases last - i
  {
    if i == last || data[i] != data[i - offset] then 0 else 1 + CommonRun(data, i + 1, offset, last)
  }

  lemma {:induction false} LongestIs(data: seq<Byte>, pos: nat, offset: nat, last: nat, length: nat)
    requires Longest(data, pos, offset, last, length)
    ensures length == CommonRun(data, pos, offset, last)
    decreases length
  {
    if length > 0 { LongestIs(data, pos + 1, offset, last, length - 1); }
  }

  /** The match length; skipping zeros that are on both sides does not change it. */
  method MatchLength(data: seq<Byte>, pos: nat, offset: nat, last: nat, skip: nat) returns (length: nat)
    requires 1 <= offset <= pos && pos + skip <= last <= |data|
    requires ZerosAt(data, pos, skip) && ZerosAt(data, pos - offset, skip)
    ensures Longest(data, pos, offset, last, length) && length == CommonRun(data, pos, offset, last)
  {
    var foreptr, backptr := pos, pos - offset;
    backptr := backptr + skip;
    foreptr := foreptr + skip;
    while foreptr != last && data[backptr] == data[foreptr]
      invariant pos <= foreptr <= last && backptr == foreptr - offset
      invariant forall k :: pos <= k < foreptr ==> data[k] == data[k - offset]
      decreases last - foreptr
    {
      backptr := backptr + 1;
      foreptr := foreptr + 1;
    }
    length := foreptr - pos;
    LongestIs(data, pos, offset, last, length);
  }

  /** A found match, or none. */
  ghost predicate Found(data: seq<Byte>, pos: nat, end: nat, size: nat, length: nat, offset: nat)
  {
    length == 0 || (MatchAt(data, pos, offset, length) && pos + length <= end && length <= MAX_LENGTH && offset < size)
  }

  /** Compares the data at pos with one candidate of the chain. */
  method TryCandidate(hash: Hash, data: seq<Byte>, pos: nat, end: nat, numzeros: nat, hashpos: nat, currentOffset: nat)
    returns (currentLength: nat)
    requires hash.Valid(data) && hash.count == pos + 1 && pos < end <= |data|
    requires ZerosKnown(data, end, pos, numzeros) && Inserted(hash.at, hashpos)
    requires hash.at[hashpos] == pos - currentOffset && currentOffset > 0
    ensures Longest(data, pos, currentOffset, Min(end, pos + MAX_LENGTH), currentLength)
    ensures currentLength == CommonRun(data, pos, currentOffset, Min(end, pos + MAX_LENGTH))
  {
    hide CommonRun;
    hide ZeroRun;
    var last := if end < pos + MAX_LENGTH then end else pos + MAX_LENGTH;
    var skip := 0;
    ZeroRunZeros(data, end, pos, MAX_LENGTH);
    if numzeros >= 3 {
      skip := hash.zeros[hashpos];
      assert ZerosAt(data, hash.at[hashpos], hash.zeros[..][hashpos]);
      if skip > numzeros { skip := numzeros; }
    }
    currentLength := MatchLength(data, pos, currentOffset, last, skip);
  }

  // ---- what the search is over ----

  /** A search at pos in the block from..end, for matches less than size back. */
  datatype Search = Search(data: seq<Byte>, from: nat, end: nat, pos: nat, size: nat)

  ghost predicate SearchOk(s: Search)
  {
    s.from <= s.pos < s.end <= |s.data| && s.size > 0
  }

  /** An earlier position of the block, in the window, whose hash is that of pos. */
  ghost predicate Candidate(s: Search, p: int)
    requires SearchOk(s)
  {
    s.from <= p < s.pos && s.pos - p < s.size && GetHash(s.data, s.end, p) == GetHash(s.data, s.end, s.pos)
  }

  /** How far the data at p and at pos agree. */
  ghost function Common(s: Search, p: nat): (r: nat)
    requires SearchOk(s) && p < s.pos
    ensures r <= MAX_LENGTH && s.pos + r <= s.end
  {
    CommonBound(s.data, s.pos, s.pos - p, Min(s.end, s.pos + MAX_LENGTH));
    CommonRun(s.data, s.pos, s.pos - p, Min(s.end, s.pos + MAX_LENGTH))
  }

  lemma {:induction false} CommonBound(data: seq<Byte>, i: nat, offset: nat, last: nat)
    requires 1 <= offset <= i <= last <= |data|
    ensures i + CommonRun(data, i, offset, last) <= last
    decreases last - i
  {
    if !(i == last || data[i] != data[i - offset]) { CommonBound(data, i + 1, offset, last); }
  }

  /** How many positions between p and pos have the hash of pos. */
  ghost function Rank(s: Search, p: nat): (r: nat)
    requires SearchOk(s)
    ensures p < s.pos ==> r < s.pos - p
    decreases s.pos - p
  {
    if p + 1 >= s.pos then 0
    else Rank(s, p + 1) + if GetHash(s.data, s.end, p + 1) == GetHash(s.data, s.end, s.pos) then 1 else 0
  }

  lemma {:induction false} RankGrows(s: Search, p: nat, c: nat)
    requires SearchOk(s) && p < c < s.pos && GetHash(s.data, s.end, c) == GetHash(s.data, s.end, s.pos)
    ensures Rank(s, p) >= Rank(s, c) + 1
    decreases c - p
  {
    hide GetHash;
    if p + 1 < c { RankGrows(s, p + 1, c); }
  }

  /** No candidate after c matches further than length. */
  ghost predicate Seen(s: Search, c: int, length: nat)
    requires SearchOk(s)
  {
    forall p: nat :: Candidate(s, p) && p > c ==> Common(s, p) <= length
  }

  /** Of the candidates that match as far as the match found, none is nearer. */
  ghost predicate Nearest(s: Search, length: nat, offset: nat)
    requires SearchOk(s)
  {
    forall p: nat :: Candidate(s, p) && s.pos - p < offset ==> Common(s, p) < length
  }

  /** Unless the match is nice enough, no candidate among the first maxchain of its chain matches further. */
  ghost predicate Thorough(s: Search, maxchain: nat, nice: nat, length: nat)
    requires SearchOk(s)
  {
    length >= nice || forall p: nat :: Candidate(s, p) && Rank(s, p) < maxchain ==> Common(s, p) <= length
  }

  /** The recorded keys are those of the data, from the start of the block on. */
  ghost predicate KeysKnown(hashes: seq<nat>, runs: seq<nat>, data: seq<Byte>, from: nat, end: nat)
    requires end <= |data|
  {
    && |hashes| == |runs|
    && forall p: nat :: from <= p < |hashes| ==> hashes[p] == GetHash(data, end, p) && runs[p] == RunKey(data, end, p)
  }

  // ---- what is seen ----

  /** Position c has been compared too, and agrees with pos for l bytes. */
  lemma SeenOne(s: Search, c: nat, length: nat, l: nat)
    requires SearchOk(s) && c < s.pos && l == Common(s, c) && Seen(s, c, length)
    ensures Seen(s, c - 1, if l > length then l else length)
    ensures l > length ==> Nearest(s, l, s.pos - c)
  {
    hide Candidate;
    hide Common;
  }

  /** Nothing was left to see. */
  lemma SeenAll(s: Search, c: nat, length: nat, l: nat)
    requires SearchOk(s) && c < s.pos && l == Common(s, c) && Seen(s, -1, length)
    ensures Seen(s, -1, if l > length then l else length)
    ensures l > length ==> Nearest(s, l, s.pos - c)
  {
    hide Candidate;
    hide Common;
  }

  lemma AllIsThorough(s: Search, maxchain: nat, nice: nat, length: nat)
    requires SearchOk(s) && (length >= nice || Seen(s, -1, length))
    ensures Thorough(s, maxchain, nice, length)
  {
    hide Candidate;
    hide Common;
  }

  /** What lies behind the first maxchain candidates need not be seen. */
  lemma EnoughSeen(s: Search, c: nat, maxchain: nat, nice: nat, length: nat)
    requires SearchOk(s) && Candidate(s, c) && Rank(s, c) >= maxchain && Seen(s, c, length)
    ensures Thorough(s, maxchain, nice, length)
  {
    hide Common;
    hide GetHash;
    forall p: nat | Candidate(s, p) && Rank(s, p) < maxchain ensures Common(s, p) <= length {
      if p < c { RankGrows(s, p, c); }
    }
  }

  // ---- runs of zeros ----

  /** A difference k bytes on ends the common run. */
  lemma {:induction false} CommonStops(data: seq<Byte>, i: nat, offset: nat, last: nat, k: nat)
    requires 1 <= offset <= i <= last <= |data|
    requires i + k >= last || data[i + k] != data[i + k - offset]
    ensures CommonRun(data, i, offset, last) <= k
    decreases k
  {
    if k > 0 && i < last { CommonStops(data, i + 1, offset, last, k - 1); }
  }

  /** Where pos begins with z zeros and p with another number of them, they agree on no more than z bytes. */
  lemma OtherRun(s: Search, p: nat)
    requires SearchOk(s) && p < s.pos
    requires RunKey(s.data, s.end, s.pos) >= 3 && GetHash(s.data, s.end, p) == GetHash(s.data, s.end, s.pos)
    requires RunKey(s.data, s.end, p) != RunKey(s.data, s.end, s.pos)
    ensures Common(s, p) <= RunKey(s.data, s.end, s.pos)
  {
    hide GetHash;
    hide CommonRun;
    hide ZeroRun;
    var z, y := RunKey(s.data, s.end, s.pos), RunKey(s.data, s.end, p);
    ZeroRunZeros(s.data, s.end, s.pos, MAX_LENGTH);
    ZeroRunZeros(s.data, s.end, p, MAX_LENGTH);
    if y < z {
      assert s.data[s.pos + y] == 0 && s.data[p + y] != 0;
      CommonStops(s.data, s.pos, s.pos - p, Min(s.end, s.pos + MAX_LENGTH), y);
    } else {
      assert s.data[p + z] == 0;
      CommonStops(s.data, s.pos, s.pos - p, Min(s.end, s.pos + MAX_LENGTH), z);
    }
  }

  // ---- following the chains ----

  /** The position before p with its key, if there is one less than size back. */
  lemma {:induction false} Previous(keys: seq<nat>, p: nat, size: nat, k: nat) returns (q: int)
    requires p < |keys| && k <= p && p - k < size
    requires forall j :: k < j < p ==> keys[j] != keys[p]
    ensures q >= 0 ==> Follows(keys, q, p, size)
    ensures q < 0 ==> q == -1 && forall j :: 0 <= j < p && p - j < size ==> keys[j] != keys[p]
    decreases k
  {
    if k < p && keys[k] == keys[p] {
      q := k;
    } else if k == 0 || p - (k - 1) >= size {
      q := -1;
    } else {
      q := Previous(keys, p, size, k - 1);
    }
  }

  /** A link leads to the next candidate of the same key, or there is none. */
  lemma FollowLink(links: seq<nat>, vals: seq<int>, at: seq<int>, keys: seq<nat>, size: nat, c: nat) returns (q: int)
    requires size > 0 && |at| == size && c < |keys| <= c + size
    requires LinksLead(links, keys, size) && WindowFull(at, size, |keys|) && KeptAt(at, vals, keys)
    ensures q >= -1 && forall j :: q < j < c && c - j < size ==> keys[j] != keys[c]
    ensures q >= 0 ==> q < c && c - q < size && keys[q] == keys[c] && c % size < size
                       && links[c % size] == q % size && q % size != c % size
    ensures q >= 0 && |keys| <= q + size ==> q % size < size && at[q % size] == q && vals[q % size] == keys[q]
  {
    q := Previous(keys, c, size, c);
    if q >= 0 {
      OwnPlaces(c, q, size);
      if |keys| <= q + size { assert InWindow(q, size, |keys|); }
    }
  }

  /** The next candidate, by hash: everything between has been seen, or there is none. */
  lemma NextByHash(s: Search, links: seq<nat>, vals: seq<int>, at: seq<int>, hashes: seq<nat>, runs: seq<nat>,
                   c: nat, length: nat) returns (q: int)
    requires SearchOk(s) && |at| == s.size && |hashes| == s.pos + 1 && KeysKnown(hashes, runs, s.data, s.from, s.end)
    requires LinksLead(links, hashes, s.size) && WindowFull(at, s.size, |hashes|) && KeptAt(at, vals, hashes)
    requires (Candidate(s, c) || c == s.pos) && Seen(s, c - 1, length)
    ensures q < 0 ==> Seen(s, -1, length)
    ensures q >= 0 ==> Candidate(s, q) && q < c && Seen(s, q, length) && links[c % s.size] == q % s.size
                       && q % s.size < s.size && q % s.size != c % s.size
                       && at[q % s.size] == q && vals[q % s.size] == GetHash(s.data, s.end, s.pos)
  {
    hide GetHash;
    hide RunKey;
    hide Common;
    hide LinksLead;
    hide WindowFull;
    hide KeptAt;
    q := FollowLink(links, vals, at, hashes, s.size, c);
    if q < s.from || s.pos - q >= s.size { q := -1; }
  }

  /** The next candidate, by its run of zeros, when the match is already longer than that run. */
  lemma NextByRun(s: Search, links: seq<nat>, vals: seq<int>, at: seq<int>, hashes: seq<nat>, runs: seq<nat>,
                  c: nat, length: nat) returns (q: int)
    requires SearchOk(s) && |at| == s.size && |hashes| == s.pos + 1 && KeysKnown(hashes, runs, s.data, s.from, s.end)
    requires LinksLead(links, runs, s.size) && WindowFull(at, s.size, |runs|) && KeptAt(at, vals, runs)
    requires Candidate(s, c) && Seen(s, c - 1, length)
    requires RunKey(s.data, s.end, c) == RunKey(s.data, s.end, s.pos) >= 3 && length > RunKey(s.data, s.end, s.pos)
    ensures q < 0 ==> Seen(s, -1, length)
    ensures q >= 0 ==> Candidate(s, q) && q < c && Seen(s, q, length) && links[c % s.size] == q % s.size
                       && q % s.size < s.size
                       && at[q % s.size] == q && vals[q % s.size] == RunKey(s.data, s.end, s.pos)
                       && RunKey(s.data, s.end, q) == RunKey(s.data, s.end, s.pos)
  {
    hide GetHash;
    hide ZeroRun;
    hide Common;
    hide LinksLead;
    hide WindowFull;
    hide KeptAt;
    q := FollowLink(links, vals, at, runs, s.size, c);
    var bound := q;
    if q < s.from || s.pos - q >= s.size { q := -1; }
    forall p: nat | Candidate(s, p) && p > q ensures Common(s, p) <= length {
      if p < c && p > bound {
        assert runs[p] != runs[c];
        OtherRun(s, p);
      }
    }
  }

  // ---- the search ----

  /** Where the search stands: every candidate has been seen, or those after the position it has come to. */
  ghost predicate Standing(s: Search, live: bool, c: int, chainlength: nat, prevOffset: nat, length: nat)
    requires SearchOk(s)
  {
    if live then
      && Candidate(s, c) && chainlength <= Rank(s, c) && prevOffset < s.pos - c && Seen(s, c, length)
      && (RunKey(s.data, s.end, s.pos) >= 3 && length > RunKey(s.data, s.end, s.pos) ==>
            RunKey(s.data, s.end, c) == RunKey(s.data, s.end, s.pos))
    else Seen(s, -1, length)
  }

  /** The position it has come to has been compared too. */
  ghost predicate Looked(s: Search, live: bool, c: int, chainlength: nat, prevOffset: nat, length: nat)
    requires SearchOk(s)
  {
    Standing(s, live, c, chainlength, prevOffset, length) && (live ==> Seen(s, c - 1, length))
  }

  /** A match found, its full length, with no nearer one as long; or none. */
  ghost predicate Matched(s: Search, length: nat, offset: nat)
    requires SearchOk(s)
  {
    && Found(s.data, s.pos, s.end, s.size, length, offset)
    && (length > 0 ==> length == Common(s, s.pos - offset))
    && Nearest(s, length, offset)
  }

  lemma NotYetMatched(s: Search)
    requires SearchOk(s)
    ensures Matched(s, 0, 0)
  {
  }

  /** The candidate has been compared. */
  lemma Compared(s: Search, live: bool, c: nat, chainlength: nat, prevOffset: nat, length: nat, offset: nat, l: nat)
    requires SearchOk(s) && c < s.pos && l == Common(s, c) && Standing(s, live, c, chainlength, prevOffset, length)
    requires Matched(s, length, offset) && Longest(s.data, s.pos, s.pos - c, Min(s.end, s.pos + MAX_LENGTH), l) && s.pos - c < s.size
    ensures Looked(s, live, c, chainlength, prevOffset, if l > length then l else length)
    ensures l > length ==> Matched(s, l, s.pos - c)
  {
    hide GetHash;
    hide RunKey;
    hide Common;
    hide Seen;
    hide Nearest;
    if live {
      SeenOne(s, c, length, l);
      SeenWeaker(s, c, if l > length then l else length);
      if RunKey(s.data, s.end, s.pos) >= 3 && RunKey(s.data, s.end, c) != RunKey(s.data, s.end, s.pos) { OtherRun(s, c); }
    } else {
      SeenAll(s, c, length, l);
    }
  }

  lemma SeenWeaker(s: Search, c: int, length: nat)
    requires SearchOk(s) && Seen(s, c - 1, length)
    ensures Seen(s, c, length)
  {
    hide Candidate;
    hide Common;
  }

  /** Where the search begins: at the nearest candidate. */
  lemma Starting(s: Search, links: seq<nat>, vals: seq<int>, at: seq<int>, hashes: seq<nat>, runs: seq<nat>) returns (live: bool)
    requires SearchOk(s) && |at| == s.size && |hashes| == s.pos + 1 && KeysKnown(hashes, runs, s.data, s.from, s.end)
    requires LinksLead(links, hashes, s.size) && WindowFull(at, s.size, |hashes|) && KeptAt(at, vals, hashes)
    requires at[s.pos % s.size] == s.pos && links[s.pos % s.size] < s.size
    ensures Standing(s, live, at[links[s.pos % s.size]], 0, 0, 0)
  {
    hide GetHash;
    hide RunKey;
    hide Common;
    hide LinksLead;
    hide WindowFull;
    hide KeptAt;
    var q := NextByHash(s, links, vals, at, hashes, runs, s.pos, 0);
    live := q >= 0;
  }

  /** The search over the state of a hash. */
  ghost predicate Searching(hash: Hash, s: Search)
    reads hash, hash.head, hash.val, hash.headz, hash.chain, hash.chainz, hash.zeros
  {
    && SearchOk(s) && hash.Valid(s.data) && hash.windowsize == s.size && hash.count == s.pos + 1
    && hash.at[s.pos % s.size] == s.pos && KeysKnown(hash.hashes, hash.runs, s.data, s.from, s.end)
  }

  /** What the search relies on. */
  lemma Chains(hash: Hash, s: Search)
    requires Searching(hash, s)
    ensures |hash.at| == s.size && |hash.hashes| == |hash.runs| == s.pos + 1
    ensures hash.chain.Length == hash.chainz.Length == hash.val.Length == hash.zeros.Length == s.size
    ensures LinksLead(hash.chain[..], hash.hashes, s.size) && LinksLead(hash.chainz[..], hash.runs, s.size)
    ensures WindowOk(hash.at, s.size, s.pos + 1) && WindowFull(hash.at, s.size, s.pos + 1)
    ensures KeptAt(hash.at, hash.val[..], hash.hashes) && KeptAt(hash.at, hash.zeros[..], hash.runs)
    ensures LinksOk(hash.at, hash.chain[..]) && LinksOk(hash.at, hash.chainz[..])
  {
    hide LinksLead;
    hide WindowOk;
    hide WindowFull;
    hide KeptAt;
    hide LinksOk;
    hide KeysKnown;
  }

  lemma OwnPlace(at: seq<int>, size: nat, count: nat, w: nat)
    requires WindowOk(at, size, count) && Inserted(at, w)
    ensures size > 0 && at[w] % size == w && at[w] < count
  {
  }

  /** A link of an inserted position, as a number of the same kind. */
  lemma LinkInside(at: seq<int>, links: seq<nat>, w: nat)
    requires LinksOk(at, links) && Inserted(at, w)
    ensures w < |links| && Inserted(at, links[w])
  {
  }

  /** From one candidate to the next, along one chain or the other; done when there is none. */
  method NextLink(hash: Hash, ghost s: Search, hashpos: nat, hashval: nat, numzeros: nat, length: nat,
                  ghost live: bool, ghost chainlength: nat, ghost prevOffset: nat)
    returns (done: bool, next: nat, ghost alive: bool)
    requires Searching(hash, s) && Inserted(hash.at, hashpos) && hash.at[hashpos] <= s.pos
    requires hashval == GetHash(s.data, s.end, s.pos) && numzeros == RunKey(s.data, s.end, s.pos)
    requires Looked(s, live, hash.at[hashpos], chainlength, prevOffset, length)
    ensures done ==> Seen(s, -1, length)
    ensures !done ==> Inserted(hash.at, next)
                      && Standing(s, alive, hash.at[next], chainlength + 1, s.pos - hash.at[hashpos], length)
  {
    hide LinksLead;
    hide WindowOk;
    hide WindowFull;
    hide KeptAt;
    hide LinksOk;
    hide KeysKnown;
    hide Hash.Valid;
    hide GetHash;
    hide RunKey;
    hide Common;
    hide Seen;
    Chains(hash, s);
    ghost var c := hash.at[hashpos];
    OwnPlace(hash.at, s.size, s.pos + 1, hashpos);
    LinkInside(hash.at, hash.chain[..], hashpos);
    LinkInside(hash.at, hash.chainz[..], hashpos);
    ghost var q := -1;
    if live { q := NextByHash(s, hash.chain[..], hash.val[..], hash.at, hash.hashes, hash.runs, c, length); }
    next, done, alive := hashpos, true, false;
    if hashpos == hash.chain[hashpos] { return; }
    if numzeros >= 3 && length > numzeros {
      if live { q := NextByRun(s, hash.chainz[..], hash.zeros[..], hash.at, hash.hashes, hash.runs, c, length); }
      next := hash.chainz[hashpos];
      if hash.zeros[next] != numzeros { return; }
    } else {
      next := hash.chain[hashpos];
      if hash.val[next] != hashval { return; }
    }
    done, alive := false, q >= 0;
    if alive { RankGrows(s, q, c); }
  }

  /** Compares a candidate and keeps it if it matches further. */
  method Compare(hash: Hash, ghost s: Search, data: seq<Byte>, pos: nat, end: nat, numzeros: nat, hashpos: nat, currentOffset: nat,
                 length: nat, offset: nat, ghost live: bool, ghost chainlength: nat, ghost prevOffset: nat)
    returns (newLength: nat, newOffset: nat)
    requires Searching(hash, s) && s.data == data && s.pos == pos && s.end == end && numzeros == RunKey(data, end, pos)
    requires Inserted(hash.at, hashpos) && hash.at[hashpos] == pos - currentOffset && currentOffset < s.size
    requires Matched(s, length, offset) && Standing(s, live, hash.at[hashpos], chainlength, prevOffset, length)
    ensures Matched(s, newLength, newOffset) && newLength >= length
    ensures Looked(s, live, hash.at[hashpos], chainlength, prevOffset, newLength)
  {
    hide Hash.Valid;
    hide KeysKnown;
    hide GetHash;
    hide ZeroRun;
    hide CommonRun;
    hide Standing;
    hide Looked;
    hide Matched;
    newLength, newOffset := length, offset;
    if currentOffset > 0 {
      var currentLength := TryCandidate(hash, data, pos, end, numzeros, hashpos, currentOffset);
      Compared(s, live, pos - currentOffset, chainlength, prevOffset, length, offset, currentLength);
      if currentLength > length {
        newLength := currentLength;
        newOffset := currentOffset;
      }
    } else {
      AtStart(s, live, chainlength, prevOffset, length);
    }
  }

  /** Walks the hash chain, and the zeros chain once inside a long run of zeros: no candidate that the
    chain reaches in time matches further than what is found, and none that matches as far is nearer. */
  method LongestMatch(hash: Hash, data: seq<Byte>, ghost from: nat, pos: nat, end: nat, hashval: nat, numzeros: nat,
                      maxchainlength: nat, nicematch: nat)
    returns (length: nat, offset: nat)
    requires from <= pos < end <= |data| && hash.windowsize > 0
    requires Searching(hash, Search(data, from, end, pos, hash.windowsize))
    requires hashval == GetHash(data, end, pos) && numzeros == RunKey(data, end, pos)
    ensures Matched(Search(data, from, end, pos, hash.windowsize), length, offset)
    ensures Thorough(Search(data, from, end, pos, hash.windowsize), maxchainlength, nicematch, length)
  {
    hide LinksLead;
    hide WindowOk;
    hide WindowFull;
    hide KeptAt;
    hide LinksOk;
    hide KeysKnown;
    hide Hash.Valid;
    hide GetHash;
    hide ZeroRun;
    hide RunKey;
    hide Standing;
    hide Looked;
    hide Seen;
    hide Matched;
    hide Thorough;
    ghost var s := Search(data, from, end, pos, hash.windowsize);
    Chains(hash, s);
    length, offset := 0, 0;
    NotYetMatched(s);
    var wpos := pos % hash.windowsize;
    LinkInside(hash.at, hash.chain[..], wpos);
    var hashpos := hash.chain[wpos];
    ghost var live := Starting(s, hash.chain[..], hash.val[..], hash.at, hash.hashes, hash.runs);
    var chainlength, prevOffset := 0, 0;
    while true
      invariant chainlength <= maxchainlength && Inserted(hash.at, hashpos) && Matched(s, length, offset)
      invariant Standing(s, live, hash.at[hashpos], chainlength, prevOffset, length)
      decreases maxchainlength - chainlength
    {
      if chainlength >= maxchainlength {
        LimitReached(s, live, hash.at[hashpos], chainlength, prevOffset, maxchainlength, nicematch, length);
        break;
      }
      chainlength := chainlength + 1;
      var currentOffset := if hashpos <= wpos then wpos - hashpos else wpos - hashpos + hash.windowsize;
      CandidateDistance(hash.at, hash.windowsize, pos, hashpos);
      if currentOffset < prevOffset {
        WentAround(s, live, hash.at[hashpos], chainlength - 1, prevOffset, maxchainlength, nicematch, length);
        break;
      }
      ghost var before := prevOffset;
      prevOffset := currentOffset;
      var longest := length;
      length, offset := Compare(hash, s, data, pos, end, numzeros, hashpos, currentOffset, length, offset, live, chainlength - 1, before);
      if length > longest && length >= nicematch {
        AllIsThorough(s, maxchainlength, nicematch, length);
        break;
      }
      var done;
      done, hashpos, live := NextLink(hash, s, hashpos, hashval, numzeros, length, live, chainlength - 1, before);
      if done {
        AllIsThorough(s, maxchainlength, nicematch, length);
        break;
      }
    }
  }

  lemma LimitReached(s: Search, live: bool, c: int, chainlength: nat, prevOffset: nat, maxchain: nat, nice: nat, length: nat)
    requires SearchOk(s) && Standing(s, live, c, chainlength, prevOffset, length) && chainlength >= maxchain
    ensures Thorough(s, maxchain, nice, length)
  {
    hide Seen;
    hide Thorough;
    if live { EnoughSeen(s, c, maxchain, nice, length); } else { AllIsThorough(s, maxchain, nice, length); }
  }

  /** A chain that leads back to pos itself has no candidates. */
  lemma AtStart(s: Search, live: bool, chainlength: nat, prevOffset: nat, length: nat)
    requires SearchOk(s) && Standing(s, live, s.pos, chainlength, prevOffset, length)
    ensures Looked(s, live, s.pos, chainlength, prevOffset, length)
  {
    hide Seen;
  }

  lemma WentAround(s: Search, live: bool, c: int, chainlength: nat, prevOffset: nat, maxchain: nat, nice: nat, length: nat)
    requires SearchOk(s) && Standing(s, live, c, chainlength, prevOffset, length) && s.pos - c < prevOffset
    ensures Thorough(s, maxchain, nice, length)
  {
    hide Seen;
    hide Thorough;
    AllIsThorough(s, maxchain, nice, length);
  }

  /** Where the chain is long enough for the window, the match found is the longest there is in the block and the window. */
  lemma LongestOfAll(s: Search, maxchain: nat, nice: nat, length: nat, o: nat)
    requires SearchOk(s) && maxchain + 1 >= s.size && Thorough(s, maxchain, nice, length) && length < nice
    requires 1 <= o < s.size && s.from + o <= s.pos
    ensures Common(s, s.pos - o) <= Max(length, 2)
  {
    hide Rank;
    if Common(s, s.pos - o) >= 3 {
      SameHash(s, s.pos - o);
      RankBelow(s, s.pos - o);
    }
  }

  lemma RankBelow(s: Search, p: nat)
    requires SearchOk(s) && p < s.pos
    ensures Rank(s, p) < s.pos - p
  {
  }

  /** Three equal bytes hash alike. */
  lemma SameHash(s: Search, p: nat)
    requires SearchOk(s) && p < s.pos && Common(s, p) >= 3
    ensures GetHash(s.data, s.end, p) == GetHash(s.data, s.end, s.pos)
  {
    var last := Min(s.end, s.pos + MAX_LENGTH);
    var o := s.pos - p;
    assert CommonRun(s.data, s.pos, o, last) >= 3;
    assert CommonRun(s.data, s.pos + 1, o, last) >= 2;
    assert CommonRun(s.data, s.pos + 2, o, last) >= 1;
  }

}
