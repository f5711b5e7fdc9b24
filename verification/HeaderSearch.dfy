/** The two device searches over block headers: which nonces win, that the kernels decide it, and what a
    launch returns.
 */
module HeaderSearch {
  import opened Digests
  import Sha256
  import Keccak
  import opened NonceSearch

  /** Winners kept by a device buffer. */
  const FOUND_CAP: nat := 4096

  function Word(n: nat): (w: bv32) {
    (n % WORD) as bv32
  }

  // ----- csd: double SHA-256 of an 84-byte header -----

  /** The header with the nonce word in its last four bytes. */
  function CsdHeader(header: seq<Byte>, nonce: bv32): (h: seq<Byte>)
    requires |header| == 84
    ensures |h| == 84
  {
    header[..80] + Sha256.BeBytes(nonce)
  }

  /** A digest read as eight big-endian words. */
  function DigestWords(digest: seq<Byte>): (words: seq<Sha256.Word>)
    requires |digest| == 32
    ensures |words| == 8
  {
    seq(8, i requires 0 <= i < 8 => Sha256.BeWord(digest[4 * i .. 4 * i + 4]))
  }

  /** SHA-256 of SHA-256 of the header with this nonce, as a 256-bit number, is at most the target. */
  predicate CsdWins(header: seq<Byte>, target: seq<Sha256.Word>, nonce: bv32)
    requires |header| == 84 && |target| == 8
  {
    Sha256.Number(DigestWords(Sha256.Hash(Sha256.Hash(CsdHeader(header, nonce))))) <= Sha256.Number(target)
  }

  lemma DigestRoundTrip(words: seq<Sha256.Word>)
    requires |words| == 8
    ensures DigestWords(Sha256.DigestBytes(words)) == words
  {
    hide Sha256.BeWord, Sha256.BeBytes;
    var bytes := Sha256.DigestBytes(words);
    forall i | 0 <= i < 8 ensures Sha256.BeWord(bytes[4 * i .. 4 * i + 4]) == words[i] {
      assert bytes[4 * i .. 4 * i + 4] == Sha256.BeBytes(words[i]);
      Sha256.BeRoundTrip(words[i]);
    }
  }

  lemma HeaderTail(header: seq<Byte>, nonce: bv32)
    requires |header| == 84
    ensures var h := CsdHeader(header, nonce);
      && h[..64] == header[..64] && Sha256.TailWord(h, 4) == nonce
      && forall i | 0 <= i < 4 :: Sha256.TailWord(h, i) == Sha256.TailWord(header, i)
  {
    Sha256.BeRoundTrip(nonce);
    hide Sha256.BeWord, Sha256.BeBytes;
    var h := CsdHeader(header, nonce);
    assert h[80..84] == Sha256.BeBytes(nonce);
    forall i | 0 <= i < 4 ensures h[64 + 4 * i .. 68 + 4 * i] == header[64 + 4 * i .. 68 + 4 * i] {
    }
  }

  /** The kernel inputs made from a header: the midstate of its first block and its tail words. */
  ghost predicate CsdInputs(header: seq<Byte>, mid: seq<Sha256.Word>, tail5: seq<Sha256.Word>)
    requires |header| == 84
  {
    && mid == Sha256.Block(Sha256.IV, Sha256.BlockOf(header[..64]))
    && |tail5| == 5 && forall i | 0 <= i < 4 :: tail5[i] == Sha256.TailWord(header, i)
  }

  /** The kernel's test on a header's midstate and tail accepts exactly the winning nonces. */
  method CsdTrial(mid: seq<Sha256.Word>, tail5: seq<Sha256.Word>, target: seq<Sha256.Word>, nonce: bv32,
                  ghost header: seq<Byte>)
    returns (hit: bool)
    requires |target| == 8 && |header| == 84 && |mid| == 8 && CsdInputs(header, mid, tail5)
    ensures hit <==> CsdWins(header, target, nonce)
  {
    var h := Sha256.Sha256dTail(mid, tail5, nonce);
    CsdKernelDigest(header, mid, tail5, nonce, h);
    hide *;
    hit := Sha256.LeTarget(h, target);
    CsdWinsByWords(header, target, nonce, h);
  }

  lemma CsdKernelDigest(header: seq<Byte>, mid: seq<Sha256.Word>, tail5: seq<Sha256.Word>, nonce: bv32,
                        h: seq<Sha256.Word>)
    requires |header| == 84 && |mid| == 8 && CsdInputs(header, mid, tail5)
    requires h == Sha256.Block(Sha256.IV, Sha256.DigestBlock(Sha256.Block(mid, Sha256.TailBlock(tail5, nonce))))
    ensures |h| == 8 && DigestWords(Sha256.Hash(Sha256.Hash(CsdHeader(header, nonce)))) == h
  {
    hide Sha256.Block, Sha256.DigestBlock, Sha256.TailBlock, Sha256.Hash, Sha256.DigestBytes, Sha256.BlockOf,
      Sha256.TailWord,
      DigestWords, CsdHeader;
    HeaderTail(header, nonce);
    Sha256.TailIsDoubleHash(CsdHeader(header, nonce), tail5);
    DigestRoundTrip(h);
  }

  lemma CsdWinsByWords(header: seq<Byte>, target: seq<Sha256.Word>, nonce: bv32, h: seq<Sha256.Word>)
    requires |header| == 84 && |target| == 8 && |h| == 8
    requires DigestWords(Sha256.Hash(Sha256.Hash(CsdHeader(header, nonce)))) == h
    ensures CsdWins(header, target, nonce) <==> Sha256.Number(h) <= Sha256.Number(target)
  {
    hide Sha256.Number, Sha256.Hash, DigestWords, CsdHeader;
  }

  /** A csd launch: eight nonces a work-item. */
  function CsdLaunch(header: seq<Byte>, target: seq<Sha256.Word>, base: nat, count: nat): (l: Launch)
    requires |header| == 84 && |target| == 8
  {
    Launch(base, count, 8, FOUND_CAP, (n: nat) => CsdWins(header, target, Word(n)))
  }

  /** The window offsets whose nonce wins. */
  ghost function CsdWinners(header: seq<Byte>, target: seq<Sha256.Word>, base: nat, count: nat): (w: set<nat>)
    requires |header| == 84 && |target| == 8
  {
    set i | i in Window(count) && CsdWins(header, target, Word((base + i) % WORD))
  }

  lemma CsdHits(header: seq<Byte>, target: seq<Sha256.Word>, base: nat, count: nat)
    requires |header| == 84 && |target| == 8 && base < WORD && 0 < count && count + 7 < WORD
    ensures var l := CsdLaunch(header, target, base, count);
      && l.base == base && l.count == count && l.per == 8 && l.cap == FOUND_CAP && l.Valid()
      && Hits(l) == CsdWinners(header, target, base, count)
  {
    hide CsdWins, Word;
  }

  /** Whatever the interleaving, a csd search reports exactly the number of nonces in the window whose
      double SHA-256 is at most the target, and returns distinct ones, as many as the buffers hold. */
  lemma CsdSearchIsExact(header: seq<Byte>, target: seq<Sha256.Word>, base: nat, count: nat,
                         run: seq<State>, buffer: seq<nat>, foundCap: nat)
    requires |header| == 84 && |target| == 8 && base < WORD && 0 < count && count + 7 < WORD
    requires var l := CsdLaunch(header, target, base, count);
      IsRun(l, run) && Finished(run[|run| - 1]) && BufferOf(l, run[|run| - 1], buffer)
    ensures var s, w := run[|run| - 1], CsdWinners(header, target, base, count);
      var out := Copied(s.counter, buffer, foundCap);
      && s.counter == |w|
      && |out| == Min(|w|, Min(foundCap, FOUND_CAP))
      && (forall k | 0 <= k < |out| :: NonceOf(w, base, out[k]))
      && (forall k, m | 0 <= k < m < |out| :: out[k] != out[m])
  {
    hide *;
    var l := CsdLaunch(header, target, base, count);
    CsdHits(header, target, base, count);
    ReturnedAreWinners(l, run, buffer, foundCap);
  }

  // ----- sha3t: SHA3-256 three times over an 80-byte header -----

  function DigestLanes(digest: seq<Byte>): (lanes: seq<Keccak.Lane>)
    requires |digest| == 32
    ensures |lanes| == 4
  {
    seq(4, i requires 0 <= i < 4 => Keccak.LaneOf(digest[8 * i .. 8 * i + 8]))
  }

  /** The triple SHA3-256 of the header with this nonce, as a little-endian 256-bit number, is at most
      the target. */
  predicate Sha3tWins(hdr: seq<Keccak.Lane>, target: seq<Keccak.Lane>, nonce: bv32)
    requires |hdr| == 10 && |target| == 4
  {
    Keccak.Number(DigestLanes(Keccak.Sha3(Keccak.Sha3(Keccak.Sha3(Keccak.BytesOf(Keccak.Patched(hdr, nonce)))))))
      <= Keccak.Number(target)
  }

  lemma LanesRoundTrip(lanes: seq<Keccak.Lane>)
    requires |lanes| == 4
    ensures DigestLanes(Keccak.BytesOf(lanes)) == lanes
  {
    hide Keccak.LaneOf, Keccak.LaneByte, Keccak.BytesOf;
    var bytes := Keccak.BytesOf(lanes);
    forall i | 0 <= i < 4 ensures Keccak.LaneOf(bytes[8 * i .. 8 * i + 8]) == lanes[i] {
      EightBytes(lanes, i);
      Keccak.LaneRoundTrip(lanes[i]);
    }
  }

  lemma ByteAt(lanes: seq<Keccak.Lane>, i: nat, k: nat)
    requires |lanes| == 4 && i < 4 && k < 8
    ensures Keccak.BytesOf(lanes)[8 * i + k] == Keccak.LaneByte(lanes[i], k)
  {
    hide Keccak.LaneByte;
    assert (8 * i + k) / 8 == i && (8 * i + k) % 8 == k;
  }

  lemma EightBytes(lanes: seq<Keccak.Lane>, i: nat)
    requires |lanes| == 4 && i < 4
    ensures Keccak.BytesOf(lanes)[8 * i .. 8 * i + 8] == Keccak.EightOf(lanes[i])
  {
    hide Keccak.LaneByte, Keccak.BytesOf, Keccak.EightOf;
    var eight, b := Keccak.BytesOf(lanes)[8 * i .. 8 * i + 8], Keccak.EightOf(lanes[i]);
    forall k | 0 <= k < 8 ensures eight[k] == b[k] {
      ByteAt(lanes, i, k);
      Keccak.EightAt(lanes[i], k);
    }
  }

  /** The kernel's test accepts exactly the winning nonces. */
  method Sha3tTrial(hdr: seq<Keccak.Lane>, target: seq<Keccak.Lane>, nonce: bv32) returns (hit: bool)
    requires |hdr| == 10 && |target| == 4
    ensures hit <==> Sha3tWins(hdr, target, nonce)
  {
    var digest := Keccak.Sha3tHash(hdr, nonce);
    hide Keccak.Number, Keccak.BytesOf, Keccak.Sha3, Keccak.Patched, DigestLanes;
    hit := Keccak.LeTarget(digest, target);
    LanesRoundTrip(digest);
  }

  /** An sha3t launch; the nonces a work-item takes are configurable. */
  function Sha3tLaunch(hdr: seq<Keccak.Lane>, target: seq<Keccak.Lane>, base: nat, count: nat, per: nat): (l: Launch)
    requires |hdr| == 10 && |target| == 4
  {
    Launch(base, count, per, FOUND_CAP, (n: nat) => Sha3tWins(hdr, target, Word(n)))
  }

  ghost function Sha3tWinners(hdr: seq<Keccak.Lane>, target: seq<Keccak.Lane>, base: nat, count: nat): (w: set<nat>)
    requires |hdr| == 10 && |target| == 4
  {
    set i | i in Window(count) && Sha3tWins(hdr, target, Word((base + i) % WORD))
  }

  lemma Sha3tHits(hdr: seq<Keccak.Lane>, target: seq<Keccak.Lane>, base: nat, count: nat, per: nat)
    requires |hdr| == 10 && |target| == 4 && base < WORD && 0 < count < WORD && 1 <= per <= 256
    ensures var l := Sha3tLaunch(hdr, target, base, count, per);
      && l.base == base && l.count == count && l.per == per && l.cap == FOUND_CAP && l.Valid()
      && Hits(l) == Sha3tWinners(hdr, target, base, count)
  {
    hide Sha3tWins, Word;
  }

  /** The same of an sha3t search and the triple SHA3-256. */
  lemma Sha3tSearchIsExact(hdr: seq<Keccak.Lane>, target: seq<Keccak.Lane>, base: nat, count: nat, per: nat,
                           run: seq<State>, buffer: seq<nat>, foundCap: nat)
    requires |hdr| == 10 && |target| == 4 && base < WORD && 0 < count && 1 <= per <= 256 && count + per - 1 < WORD
    requires var l := Sha3tLaunch(hdr, target, base, count, per);
      IsRun(l, run) && Finished(run[|run| - 1]) && BufferOf(l, run[|run| - 1], buffer)
    ensures var s, w := run[|run| - 1], Sha3tWinners(hdr, target, base, count);
      var out := Copied(s.counter, buffer, foundCap);
      && s.counter == |w|
      && |out| == Min(|w|, Min(foundCap, FOUND_CAP))
      && (forall k | 0 <= k < |out| :: NonceOf(w, base, out[k]))
      && (forall k, m | 0 <= k < m < |out| :: out[k] != out[m])
  {
    hide *;
    var l := Sha3tLaunch(hdr, target, base, count, per);
    Sha3tHits(hdr, target, base, count, per);
    ReturnedAreWinners(l, run, buffer, foundCap);
  }
}
