/** The LZ77 encoder: greedy or lazy parsing with the matches that the hash chains find. */
module Lz77Encoder {
  import opened Bits
  import opened InflateSpec
  import opened Lz77
  import opened HashChains
  import opened MatchSearch

  datatype Lz77Settings = Lz77Settings(windowsize: nat, minmatch: nat, nicematch: nat, lazymatching: bool)

  predicate PowerOfTwo(n: nat)
  {
    exists k :: 0 <= k <= 15 && n == Pow2(k)
  }

  /** The window sizes the source accepts. */
  predicate WindowSizeOk(n: nat)
  {
    0 < n <= 32768 && PowerOfTwo(n)
  }

  // ---- what the encoder decides ----

  /** A match for a position; of length 0 if there is none. */
  datatype Find = NoFind | Find(length: nat, offset: nat)

  /** One decision: the match found here, perhaps another one byte ahead, and the codes that follow from them. */
  datatype Token = Token(pos: nat, here: Find, ahead: Find, codes: seq<nat>)

  /** What the search finds at pos: the nearest of the longest matches in the window, unless a chain of a small
    window is cut short or the match is nice enough. */
  ghost predicate Best(data: seq<Byte>, from: nat, end: nat, settings: Lz77Settings, pos: nat, f: Find)
  {
    var s := Search(data, from, end, pos, settings.windowsize);
    && SearchOk(s) && f.Find? && Matched(s, f.length, f.offset)
    && Thorough(s, if settings.windowsize >= 8192 then settings.windowsize else settings.windowsize / 8,
                Min(settings.nicematch, 258), f.length)
  }

  /** A match that the lazy encoder does not take before it has looked one byte ahead. */
  ghost predicate Deferred(settings: Lz77Settings, f: Find)
  {
    f.Find? && settings.lazymatching && 3 <= f.length <= (if settings.windowsize >= 8192 then 257 else 64)
  }

  /** Matches that are too short, or of three bytes and too far, are not worth a pair. */
  ghost predicate Worth(settings: Lz77Settings, f: Find)
  {
    f.Find? && f.length >= 3 && f.length >= settings.minmatch && !(f.length == 3 && f.offset > 4096)
  }

  /** The codes for the byte at pos or for the match found there. */
  ghost predicate CodedAs(data: seq<Byte>, settings: Lz77Settings, pos: nat, f: Find, q: seq<nat>)
  {
    if Worth(settings, f) then PairFor(q, f.length, f.offset) else pos < |data| && q == [data[pos]]
  }

  ghost function Width(settings: Lz77Settings, f: Find): (r: nat)
    ensures r > 0
  {
    if Worth(settings, f) then f.length else 1
  }

  /** The match one byte ahead is longer by two or more. */
  ghost predicate Overtaken(t: Token)
  {
    t.here.Find? && t.ahead.Find? && t.ahead.length > t.here.length + 1
  }

  ghost predicate TokenOk(data: seq<Byte>, from: nat, end: nat, settings: Lz77Settings, t: Token)
  {
    && Best(data, from, end, settings, t.pos, t.here)
    && (t.ahead.Find? <==> Deferred(settings, t.here))
    && (t.ahead.Find? ==> Best(data, from, end, settings, t.pos + 1, t.ahead))
    && if Overtaken(t)
       then t.codes != [] && t.codes[0] == data[t.pos] && CodedAs(data, settings, t.pos + 1, t.ahead, t.codes[1..])
       else CodedAs(data, settings, t.pos, t.here, t.codes)
  }

  /** Where the next decision is due. */
  ghost function After(settings: Lz77Settings, t: Token): nat
  {
    if Overtaken(t) then t.pos + 1 + Width(settings, t.ahead) else t.pos + Width(settings, t.here)
  }

  ghost function CodesOf(tokens: seq<Token>): seq<nat>
  {
    if tokens == [] then [] else CodesOf(tokens[..|tokens| - 1]) + tokens[|tokens| - 1].codes
  }

  ghost function EndOf(settings: Lz77Settings, from: nat, tokens: seq<Token>): nat
  {
    if tokens == [] then from else After(settings, tokens[|tokens| - 1])
  }

  /** The decisions follow one another from the start of the block to pos, and the values are their codes. */
  ghost predicate Parses(data: seq<Byte>, from: nat, end: nat, settings: Lz77Settings, tokens: seq<Token>, values: seq<nat>, pos: nat)
  {
    && (forall k: nat :: k < |tokens| ==> TokenOk(data, from, end, settings, tokens[k])
                                          && tokens[k].pos == EndOf(settings, from, tokens[..k]))
    && values == CodesOf(tokens) && pos == EndOf(settings, from, tokens)
  }

  lemma ParsesMore(data: seq<Byte>, from: nat, end: nat, settings: Lz77Settings, tokens: seq<Token>, values: seq<nat>, t: Token)
    requires Parses(data, from, end, settings, tokens, values, t.pos) && TokenOk(data, from, end, settings, t)
    ensures Parses(data, from, end, settings, tokens + [t], values + t.codes, After(settings, t))
  {
    hide TokenOk;
    hide After;
    var more := tokens + [t];
    forall k: nat | k < |more|
      ensures TokenOk(data, from, end, settings, more[k]) && more[k].pos == EndOf(settings, from, more[..k])
    {
      assert more[..k] == tokens[..k];
      if k == |tokens| { assert tokens[..k] == tokens; }
    }
    assert more[..|more| - 1] == tokens;
  }

  lemma NothingParsed(data: seq<Byte>, from: nat, end: nat, settings: Lz77Settings)
    ensures Parses(data, from, end, settings, [], [], from)
  {
  }

  /** In a window of 8192 bytes or more, unless it is nice enough, what is found at a position is the longest
    of all matches in the block, and no nearer one is as long. */
  lemma BestIsLongest(data: seq<Byte>, from: nat, end: nat, settings: Lz77Settings, pos: nat, f: Find, o: nat)
    requires Best(data, from, end, settings, pos, f) && settings.windowsize >= 8192 && f.length < Min(settings.nicematch, 258)
    requires 1 <= o < settings.windowsize && from + o <= pos
    ensures var l := CommonRun(data, pos, o, Min(end, pos + 258));
            l <= Max(f.length, 2) && (l >= 3 && o < f.offset ==> l < f.length)
  {
    hide Common;
    hide Matched;
    hide Thorough;
    var s := Search(data, from, end, pos, settings.windowsize);
    LongestOfAll(s, settings.windowsize, Min(settings.nicematch, 258), f.length, o);
    CommonIs(s, o);
    if Common(s, pos - o) >= 3 { NoneAsNear(s, f.length, f.offset, o); }
  }

  lemma CommonIs(s: Search, o: nat)
    requires SearchOk(s) && 1 <= o <= s.pos
    ensures Common(s, s.pos - o) == CommonRun(s.data, s.pos, o, Min(s.end, s.pos + 258))
  {
  }

  lemma NoneAsNear(s: Search, length: nat, offset: nat, o: nat)
    requires SearchOk(s) && Matched(s, length, offset) && 1 <= o < s.size && s.from + o <= s.pos && Common(s, s.pos - o) >= 3
    ensures o < offset ==> Common(s, s.pos - o) < length
  {
    hide Common;
    hide GetHash;
    SameHash(s, s.pos - o);
    assert o < offset ==> Candidate(s, s.pos - o);
  }

  // ---- the scan ----

  /** Hash and run length agree on how far the scan has come: up to pos, or pos itself to be done again. */
  ghost predicate Scanned(hash: Hash, data: seq<Byte>, from: nat, end: nat, pos: nat, numzeros: nat)
    requires end <= |data|
    reads hash, hash.head, hash.val, hash.headz, hash.chain, hash.chainz, hash.zeros
  {
    && hash.Valid(data) && hash.windowsize > 0 && hash.count <= end && from <= pos
    && KeysKnown(hash.hashes, hash.runs, data, from, end)
    && if hash.forgotten then hash.count == pos + 1 && ZerosKnown(data, end, pos, numzeros)
       else hash.count == pos && (numzeros == 0 || (pos > 0 && ZerosKnown(data, end, pos - 1, numzeros)))
  }

  lemma KeysMore(hashes: seq<nat>, runs: seq<nat>, data: seq<Byte>, from: nat, end: nat, pos: nat)
    requires end <= |data| && pos <= |hashes| <= pos + 1 && KeysKnown(hashes, runs, data, from, end)
    ensures KeysKnown(hashes[..pos] + [GetHash(data, end, pos)], runs[..pos] + [RunKey(data, end, pos)], data, from, end)
  {
    hide GetHash;
    hide RunKey;
  }

  /** Inserts one position and updates the run of zeros. */
  method Insert(hash: Hash, data: seq<Byte>, ghost from: nat, end: nat, pos: nat, numzeros: nat) returns (hashval: nat, known: nat)
    requires pos < end <= |data| && Scanned(hash, data, from, end, pos, numzeros)
    modifies hash, hash.head, hash.val, hash.chain, hash.headz, hash.chainz, hash.zeros
    ensures Searching(hash, Search(data, from, end, pos, hash.windowsize)) && !hash.forgotten
    ensures hashval == GetHash(data, end, pos) && known == RunKey(data, end, pos)
    ensures Scanned(hash, data, from, end, pos + 1, known)
  {
    hide ZeroRun;
    hide RunsOk;
    hide HeadsOk;
    hide LinksOk;
    hide HeadsLead;
    hide LinksLead;
    hide KeptAt;
    hide WindowOk;
    hide WindowFull;
    hide GetHash;
    hashval := GetHash(data, end, pos);
    known := NextZeros(data, end, pos, hashval, numzeros);
    ZeroRunZeros(data, end, pos, MAX_LENGTH);
    KeysMore(hash.hashes, hash.runs, data, from, end, pos);
    hash.UpdateHashChain(data, pos, hashval, known);
  }

  // ---- the encoder ----

  /** Emits a literal or a match for pos; the positions inside a match are inserted too. */
  method Emit(values: seq<nat>, hash: Hash, data: seq<Byte>, ghost from: nat, end: nat, pos: nat, length: nat, offset: nat,
              numzeros: nat, settings: Lz77Settings, ghost start: seq<Byte>)
    returns (r: seq<nat>, next: nat, known: nat, ghost q: seq<nat>)
    requires pos < end <= |data| && Expand(values, start) == Some(data[..pos])
    requires Scanned(hash, data, from, end, pos + 1, numzeros) && hash.windowsize <= 32768
    requires Found(data, pos, end, hash.windowsize, length, offset)
    modifies hash, hash.head, hash.val, hash.chain, hash.headz, hash.chainz, hash.zeros
    ensures pos < next <= end && Expand(r, start) == Some(data[..next])
    ensures Scanned(hash, data, from, end, next, known)
    ensures r == values + q && CodedAs(data, settings, pos, Find(length, offset), q)
    ensures next == pos + Width(settings, Find(length, offset))
  {
    hide Expand;
    hide PairOk;
    hide LengthBase;
    hide DistanceBase;
    hide Scanned;
    known := numzeros;
    next := pos + 1;
    if length < 3 || length < settings.minmatch || (length == 3 && offset > 4096) {
      q := [data[pos]];
      r := values + [data[pos]];
      ExpandLiteral(values, start, data, pos);
    } else {
      r := AddLengthDistance(values, length, offset);
      q := r[|values|..];
      assert r == values + q;
      ExpandMatch(values, start, data, pos, q, offset, length);
      for i := 1 to length
        invariant next == pos + i && Scanned(hash, data, from, end, next, known)
      {
        var hashval;
        hashval, known := Insert(hash, data, from, end, next, known);
        next := next + 1;
      }
    }
  }

  /** How far the values have come: up to pos, or to the position before it while its match is pending. */
  ghost predicate Emitted(values: seq<nat>, data: seq<Byte>, from: nat, end: nat, settings: Lz77Settings, tokens: seq<Token>,
                          pos: nat, lazy: bool, pending: Find)
  {
    && from <= pos <= end <= |data|
    && if !lazy then Expand(values, data[..from]) == Some(data[..pos]) && Parses(data, from, end, settings, tokens, values, pos)
       else
         && from < pos < end && Best(data, from, end, settings, pos - 1, pending) && Deferred(settings, pending)
         && Expand(values, data[..from]) == Some(data[..pos - 1]) && Parses(data, from, end, settings, tokens, values, pos - 1)
  }

  /** What has been emitted for a decision is what it asks for. */
  lemma Decided(data: seq<Byte>, from: nat, end: nat, settings: Lz77Settings, t: Token, q: seq<nat>)
    requires Best(data, from, end, settings, t.pos, t.here)
    requires t.ahead.Find? <==> Deferred(settings, t.here)
    requires t.ahead.Find? ==> Best(data, from, end, settings, t.pos + 1, t.ahead)
    requires if Overtaken(t) then t.codes == [data[t.pos]] + q && CodedAs(data, settings, t.pos + 1, t.ahead, q)
             else t.codes == q && CodedAs(data, settings, t.pos, t.here, q)
    ensures TokenOk(data, from, end, settings, t)
    ensures After(settings, t) == if Overtaken(t) then t.pos + 1 + Width(settings, t.ahead) else t.pos + Width(settings, t.here)
  {
    hide Best;
    hide CodedAs;
    hide Width;
    if Overtaken(t) { assert t.codes[1..] == q; }
  }

  lemma NothingScanned(hash: Hash, data: seq<Byte>, from: nat, end: nat)
    requires from <= end <= |data| && hash.Valid(data) && !hash.forgotten && hash.count == from && hash.windowsize > 0
    ensures Scanned(hash, data, from, end, from, 0)
  {
  }

  /** At the end of the block nothing is left to be done again. */
  lemma ScannedAll(hash: Hash, data: seq<Byte>, from: nat, end: nat, pos: nat, numzeros: nat)
    requires end <= |data| && end <= pos && Scanned(hash, data, from, end, pos, numzeros)
    ensures hash.Valid(data) && !hash.forgotten && hash.count == pos
  {
  }

  lemma FindFits(data: seq<Byte>, from: nat, end: nat, settings: Lz77Settings, pos: nat, f: Find)
    requires Best(data, from, end, settings, pos, f)
    ensures pos + f.length <= end && f.length <= MAX_LENGTH
  {
    hide Nearest;
    hide Thorough;
    hide Common;
  }

  /** Takes the position just inserted off its heads, to do it again. */
  method Forget(hash: Hash, data: seq<Byte>, ghost from: nat, end: nat, pos: nat, hashval: nat, numzeros: nat)
    requires pos < end <= |data| && Scanned(hash, data, from, end, pos + 1, numzeros) && !hash.forgotten
    requires from <= pos && hashval == GetHash(data, end, pos) && numzeros == RunKey(data, end, pos)
    modifies hash, hash.head, hash.headz
    ensures Scanned(hash, data, from, end, pos, numzeros)
  {
    hide ZeroRun;
    hide GetHash;
    hide HeadsLead;
    hide LinksLead;
    hide KeptAt;
    hide WindowOk;
    hide WindowFull;
    hash.ForgetHeads(data, hashval, numzeros);
  }

  /** Decides between the match found at pos and one pending from the position before, and emits the outcome. */
  method Settle(values: seq<nat>, hash: Hash, data: seq<Byte>, ghost from: nat, end: nat, pos: nat, length: nat, offset: nat,
                hashval: nat, numzeros: nat, settings: Lz77Settings, lazy: bool, lazylength: nat, lazyoffset: nat,
                ghost tokens: seq<Token>)
    returns (error: int, r: seq<nat>, next: nat, known: nat, ghost more: seq<Token>)
    requires from <= pos < end <= |data| && Scanned(hash, data, from, end, pos + 1, numzeros) && !hash.forgotten
    requires hashval == GetHash(data, end, pos) && numzeros == RunKey(data, end, pos)
    requires hash.windowsize == settings.windowsize <= 32768
    requires Best(data, from, end, settings, pos, Find(length, offset))
    requires Emitted(values, data, from, end, settings, tokens, pos, lazy, Find(lazylength, lazyoffset))
    requires !lazy ==> !Deferred(settings, Find(length, offset))
    modifies hash, hash.head, hash.val, hash.chain, hash.headz, hash.chainz, hash.zeros
    ensures error == 0 && (if lazy then pos <= next else pos < next) && next <= end
    ensures Scanned(hash, data, from, end, next, known)
    ensures Emitted(r, data, from, end, settings, more, next, false, NoFind)
  {
    hide Expand;
    hide Parses;
    hide TokenOk;
    hide Thorough;
    hide Nearest;
    hide Common;
    hide Scanned;
    hide Width;
    hide CodedAs;
    hide GetHash;
    hide RunKey;
    r, next, known, more := values, pos, numzeros, tokens;
    var l, o := length, offset;
    ghost var token := Token(pos, Find(length, offset), NoFind, []);
    if lazy {
      token := Token(pos - 1, Find(lazylength, lazyoffset), Find(length, offset), []);
      if pos == 0 { return 81, r, next, known, more; }
      if length > lazylength + 1 {
        ExpandLiteral(values, data[..from], data, pos - 1);
        r := values + [data[pos - 1]];
        token := token.(codes := [data[pos - 1]]);
      } else {
        l, o := lazylength, lazyoffset;
        Forget(hash, data, from, end, pos, hashval, numzeros);
        next := pos - 1;
      }
    }
    if l >= 3 && o > settings.windowsize { return 86, r, next, known, more; }
    ghost var q;
    r, next, known, q := Emit(r, hash, data, from, end, next, l, o, numzeros, settings, data[..from]);
    token := token.(codes := token.codes + q);
    Decided(data, from, end, settings, token, q);
    ParsesMore(data, from, end, settings, tokens, values, token);
    assert r == values + token.codes;
    more := tokens + [token];
    error := 0;
  }

  /** Encodes data[inpos..insize]; the codes expand, after the earlier data, to exactly those bytes,
    and they are those of the decisions that the settings ask for. */
  method EncodeLZ77(hash: Hash, data: seq<Byte>, inpos: nat, insize: nat, settings: Lz77Settings)
    returns (error: int, values: seq<nat>, ghost tokens: seq<Token>)
    requires inpos <= insize <= |data|
    requires hash.Valid(data) && !hash.forgotten && hash.count == inpos && hash.windowsize == settings.windowsize
    modifies hash, hash.head, hash.val, hash.chain, hash.headz, hash.chainz, hash.zeros
    ensures error == 0 <==> WindowSizeOk(settings.windowsize)
    ensures error == 0 ==> hash.Valid(data) && !hash.forgotten && hash.count == insize
    ensures error == 0 ==> Expand(values, data[..inpos]) == Some(data[..insize])
    ensures error == 0 ==> Parses(data, inpos, insize, settings, tokens, values, insize)
  {
    hide Expand;
    hide Parses;
    hide Scanned;
    hide Searching;
    hide Matched;
    hide Thorough;
    hide Hash.Valid;
    hide GetHash;
    hide RunKey;
    values, tokens := [], [];
    var windowsize := settings.windowsize;
    var maxchainlength := if windowsize >= 8192 then windowsize else windowsize / 8;
    var maxlazymatch := if windowsize >= 8192 then MAX_LENGTH else 64;
    if windowsize == 0 || windowsize > 32768 { return 60, values, tokens; }
    if !PowerOfTwo(windowsize) { return 90, values, tokens; }
    var nicematch := if settings.nicematch > MAX_LENGTH then MAX_LENGTH else settings.nicematch;
    NothingMore(data[..inpos]);
    NothingParsed(data, inpos, insize, settings);
    var numzeros := 0;
    NothingScanned(hash, data, inpos, insize);
    var lazy, lazylength, lazyoffset := false, 0, 0;
    var pos := inpos;
    while pos < insize
      invariant hash.windowsize == windowsize
      invariant Emitted(values, data, inpos, insize, settings, tokens, pos, lazy, Find(lazylength, lazyoffset))
      invariant Scanned(hash, data, inpos, insize, pos, numzeros)
      decreases insize - (if lazy then pos - 1 else pos), !lazy
    {
      var hashval, length, offset;
      hashval, numzeros := Insert(hash, data, inpos, insize, pos, numzeros);
      length, offset := LongestMatch(hash, data, inpos, pos, insize, hashval, numzeros, maxchainlength, nicematch);
      if settings.lazymatching && !lazy && length >= 3 && length <= maxlazymatch && length < MAX_LENGTH {
        FindFits(data, inpos, insize, settings, pos, Find(length, offset));
        lazy, lazylength, lazyoffset := true, length, offset;
        pos := pos + 1;
        continue;
      }
      error, values, pos, numzeros, tokens := Settle(values, hash, data, inpos, insize, pos, length, offset, hashval, numzeros,
                                                     settings, lazy, lazylength, lazyoffset, tokens);
      lazy := false;
    }
    ScannedAll(hash, data, inpos, insize, pos, numzeros);
    error := 0;
  }
}
