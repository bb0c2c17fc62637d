/** The chained block decipher of Green-GO announces (internal/netmon/detect_greengo_h.go). */
module GreenGoCipher {

  // ---- Words ----

  function Ror32(x: bv32, n: bv6): bv32
    requires 0 < n < 32
  {
    (x >> n) | (x << (32 - n))
  }

  lemma RotatedBit(x: bv32, n: bv6, i: bv6)
    requires 0 < n < 32 && i < 32
    ensures (((x >> n) | (x << (32 - n))) >> i) & 1 == (x >> ((i + n) % 32)) & 1
  {
  }

  /** Bit i is bit i + n of x, counted round. */
  lemma RorExactly(x: bv32, n: bv6, i: bv6)
    requires 0 < n < 32 && i < 32
    ensures (Ror32(x, n) >> i) & 1 == (x >> ((i + n) % 32)) & 1
  {
    RotatedBit(x, n, i);
  }

  /** Addition modulo 2^32. */
  function Add32(x: bv32, y: bv32): bv32 { x + y }

  function Xor32(x: bv32, y: bv32): bv32 { x ^ y }

  function Neg32(x: bv32): bv32 { 0 - x }

  /** XOR sets exactly the bits set in one of the two. */
  lemma XorExactly(x: bv32, y: bv32)
    ensures Xor32(x, y) == (x & !y) | (!x & y)
  {
  }

  /** Adding y steps y times past x, from 2^32 - 1 on to 0. */
  lemma AddExactly(x: bv32, y: bv32)
    ensures Add32(x, 0) == x && Add32(x, y + 1) == Add32(x, y) + 1
  {
    Steps(x, y);
  }

  lemma Steps(x: bv32, y: bv32)
    ensures x + 0 == x && x + (y + 1) == (x + y) + 1
  {
  }

  /** The little-endian word of four octets. */
  function Word(b0: bv8, b1: bv8, b2: bv8, b3: bv8): bv32 {
    (b0 as bv32) | ((b1 as bv32) << 8) | ((b2 as bv32) << 16) | ((b3 as bv32) << 24)
  }

  function Octet(v: bv32): bv8 { (v & 0xff) as bv8 }

  function Octets(v: bv32): (r: seq<bv8>)
    ensures |r| == 4
  {
    [Octet(v), Octet(v >> 8), Octet(v >> 16), Octet(v >> 24)]
  }

  lemma WordOfOctets(v: bv32)
    ensures Word(Octet(v), Octet(v >> 8), Octet(v >> 16), Octet(v >> 24)) == v
  {
  }

  lemma OctetsOfWord(b0: bv8, b1: bv8, b2: bv8, b3: bv8)
    ensures Octet(Word(b0, b1, b2, b3)) == b0
    ensures Octet(Word(b0, b1, b2, b3) >> 8) == b1
    ensures Octet(Word(b0, b1, b2, b3) >> 16) == b2
    ensures Octet(Word(b0, b1, b2, b3) >> 24) == b3
  {
  }

  function WordAt(b: seq<bv8>, o: nat): bv32
    requires o + 4 <= |b|
  {
    Word(b[o], b[o + 1], b[o + 2], b[o + 3])
  }

  /** s with its four octets from o replaced by x. */
  function Splice(s: seq<bv8>, o: nat, x: seq<bv8>): (r: seq<bv8>)
    requires |x| == 4 && o + 4 <= |s|
    ensures |r| == |s|
  {
    s[..o] + x + s[o + 4..]
  }

  method LEu32(b: array<bv8>, off: nat) returns (v: bv32)
    requires off + 4 <= b.Length
    ensures v == WordAt(b[..], off)
  {
    v := (b[off] as bv32) | ((b[off + 1] as bv32) << 8) | ((b[off + 2] as bv32) << 16) | ((b[off + 3] as bv32) << 24);
  }

  method PutLEu32(b: array<bv8>, off: nat, v: bv32)
    requires off + 4 <= b.Length
    modifies b
    ensures b[..] == Splice(old(b[..]), off, Octets(v))
  {
    b[off] := Octet(v);
    b[off + 1] := Octet(v >> 8);
    b[off + 2] := Octet(v >> 16);
    b[off + 3] := Octet(v >> 24);
  }

  // ---- Blocks ----

  const BLOCK := 16

  function Join(w0: bv32, w1: bv32, w2: bv32, w3: bv32): (r: seq<bv8>)
    ensures |r| == BLOCK
  {
    Octets(w0) + Octets(w1) + Octets(w2) + Octets(w3)
  }

  /** One block under key k; XOR makes it its own inverse. */
  function XorBlock(b: seq<bv8>, k: bv32): (r: seq<bv8>)
    requires |b| == BLOCK
    ensures |r| == BLOCK
  {
    Join(Xor32(Ror32(k, 6), WordAt(b, 0)), Xor32(Ror32(k, 19), WordAt(b, 4)), Xor32(Ror32(k, 1), WordAt(b, 8)),
         Xor32(Ror32(k, 7), WordAt(b, 12)))
  }

  function BlockSum(p: seq<bv8>): bv32
    requires |p| == BLOCK
  {
    Add32(Add32(Add32(WordAt(p, 0), WordAt(p, 4)), WordAt(p, 8)), WordAt(p, 12))
  }

  predicate Whole(b: seq<bv8>) { |b| % BLOCK == 0 }

  function Init(b: seq<bv8>): (r: seq<bv8>)
    requires Whole(b) && b != []
    ensures Whole(r) && |r| == |b| - BLOCK
  {
    b[..|b| - BLOCK]
  }

  function Last(b: seq<bv8>): (r: seq<bv8>)
    requires Whole(b) && b != []
    ensures |r| == BLOCK
  {
    b[|b| - BLOCK..]
  }

  /** The sum of all plaintext words, modulo 2^32. */
  function Sum(plain: seq<bv8>): bv32
    requires Whole(plain)
  {
    if plain == [] then 0 else Add32(Sum(Init(plain)), BlockSum(Last(plain)))
  }

  /** The key of the block after this plaintext. */
  function Key(plain: seq<bv8>, seed: bv32): bv32
    requires Whole(plain)
  {
    if plain == [] then seed else Add32(Ror32(Key(Init(plain), seed), 15), Sum(plain))
  }

  function Decrypt(cipher: seq<bv8>, seed: bv32): (plain: seq<bv8>)
    requires Whole(cipher)
    ensures |plain| == |cipher|
  {
    if cipher == [] then [] else
      var p := Decrypt(Init(cipher), seed);
      p + XorBlock(Last(cipher), Key(p, seed))
  }

  /** The sender's side, written independently: every block is keyed by the plaintext before it. */
  function Encrypt(plain: seq<bv8>, seed: bv32): (cipher: seq<bv8>)
    requires Whole(plain)
    ensures |cipher| == |plain|
  {
    if plain == [] then [] else Encrypt(Init(plain), seed) + XorBlock(Last(plain), Key(Init(plain), seed))
  }

  lemma OctetsAt(s: seq<bv8>, o: nat, v: bv32)
    requires o + 4 <= |s| && s[o..o + 4] == Octets(v)
    ensures WordAt(s, o) == v
  {
    var x := s[o..o + 4];
    assert s[o] == x[0] && s[o + 1] == x[1] && s[o + 2] == x[2] && s[o + 3] == x[3];
    WordOfOctets(v);
    hide Word, Octet;
  }

  lemma JoinParts(w0: bv32, w1: bv32, w2: bv32, w3: bv32)
    ensures var r := Join(w0, w1, w2, w3);
            && r[0..4] == Octets(w0) && r[4..8] == Octets(w1) && r[8..12] == Octets(w2) && r[12..16] == Octets(w3)
  {
    hide Octets;
  }

  lemma JoinWords(w0: bv32, w1: bv32, w2: bv32, w3: bv32)
    ensures var r := Join(w0, w1, w2, w3);
            WordAt(r, 0) == w0 && WordAt(r, 4) == w1 && WordAt(r, 8) == w2 && WordAt(r, 12) == w3
  {
    hide Octets, Join, WordAt;
    JoinParts(w0, w1, w2, w3);
    var r := Join(w0, w1, w2, w3);
    OctetsAt(r, 0, w0);
    OctetsAt(r, 4, w1);
    OctetsAt(r, 8, w2);
    OctetsAt(r, 12, w3);
  }

  lemma XorBlockWords(b: seq<bv8>, k: bv32)
    requires |b| == BLOCK
    ensures var r := XorBlock(b, k);
            && WordAt(r, 0) == Xor32(Ror32(k, 6), WordAt(b, 0)) && WordAt(r, 4) == Xor32(Ror32(k, 19), WordAt(b, 4))
            && WordAt(r, 8) == Xor32(Ror32(k, 1), WordAt(b, 8)) && WordAt(r, 12) == Xor32(Ror32(k, 7), WordAt(b, 12))
  {
    hide Ror32, WordAt, Join, Xor32;
    JoinWords(Xor32(Ror32(k, 6), WordAt(b, 0)), Xor32(Ror32(k, 19), WordAt(b, 4)), Xor32(Ror32(k, 1), WordAt(b, 8)),
              Xor32(Ror32(k, 7), WordAt(b, 12)));
  }

  lemma XorTwice(x: bv32, w: bv32)
    ensures Xor32(x, Xor32(x, w)) == w
  {
  }

  lemma OctetsOfWordAt(b: seq<bv8>, o: nat)
    requires o + 4 <= |b|
    ensures Octets(WordAt(b, o)) == b[o..o + 4]
  {
    OctetsOfWord(b[o], b[o + 1], b[o + 2], b[o + 3]);
    hide Word, Octet;
  }

  lemma XorBlockTwice(b: seq<bv8>, k: bv32)
    requires |b| == BLOCK
    ensures XorBlock(XorBlock(b, k), k) == b
  {
    hide Ror32, WordAt, Octets, Xor32;
    XorBlockWords(b, k);
    XorTwice(Ror32(k, 6), WordAt(b, 0));
    XorTwice(Ror32(k, 19), WordAt(b, 4));
    XorTwice(Ror32(k, 1), WordAt(b, 8));
    XorTwice(Ror32(k, 7), WordAt(b, 12));
    OctetsOfWordAt(b, 0);
    OctetsOfWordAt(b, 4);
    OctetsOfWordAt(b, 8);
    OctetsOfWordAt(b, 12);
    assert b == b[0..4] + b[4..8] + b[8..12] + b[12..16];
  }

  lemma Snoc(a: seq<bv8>, b: seq<bv8>)
    requires Whole(a) && |b| == BLOCK
    ensures Whole(a + b) && Init(a + b) == a && Last(a + b) == b
  {
  }

  /** For every seed, deciphering is a bijection on whole-block payloads. */
  lemma {:induction false} EncryptDecrypt(cipher: seq<bv8>, seed: bv32)
    requires Whole(cipher)
    ensures Encrypt(Decrypt(cipher, seed), seed) == cipher
  {
    hide XorBlock, Key;
    if cipher != [] {
      EncryptDecrypt(Init(cipher), seed);
      var p := Decrypt(Init(cipher), seed);
      var b := XorBlock(Last(cipher), Key(p, seed));
      Snoc(p, b);
      XorBlockTwice(Last(cipher), Key(p, seed));
    }
  }

  lemma {:induction false} DecryptEncrypt(plain: seq<bv8>, seed: bv32)
    requires Whole(plain)
    ensures Decrypt(Encrypt(plain, seed), seed) == plain
  {
    hide XorBlock, Key;
    if plain != [] {
      DecryptEncrypt(Init(plain), seed);
      var c := Encrypt(Init(plain), seed);
      var b := XorBlock(Last(plain), Key(Init(plain), seed));
      Snoc(c, b);
      XorBlockTwice(Last(plain), Key(Init(plain), seed));
    }
  }

  lemma BlockBelow(n: nat, m: nat)
    requires n < m && n % BLOCK == 0 && m % BLOCK == 0
    ensures n <= m - BLOCK
  {
  }

  /** The last block decides nothing before it. */
  lemma DecryptInit(cipher: seq<bv8>, seed: bv32, n: nat)
    requires Whole(cipher) && n + BLOCK <= |cipher|
    ensures Decrypt(cipher, seed)[..n] == Decrypt(Init(cipher), seed)[..n]
  {
    hide XorBlock, Key;
  }

  /** Chaining runs forward only: the plaintext of a prefix does not depend on what follows. */
  lemma {:induction false} PrefixStable(cipher: seq<bv8>, seed: bv32, n: nat)
    requires Whole(cipher) && n <= |cipher| && n % BLOCK == 0
    ensures Decrypt(cipher, seed)[..n] == Decrypt(cipher[..n], seed)
  {
    hide XorBlock, Key;
    if n < |cipher| {
      BlockBelow(n, |cipher|);
      DecryptInit(cipher, seed, n);
      PrefixStable(Init(cipher), seed, n);
      assert Init(cipher)[..n] == cipher[..n];
    } else {
      assert cipher[..n] == cipher;
    }
  }

  // ---- The whole payload ----

  function WholePart(payload: seq<bv8>): (r: seq<bv8>)
    ensures Whole(r)
  {
    payload[..|payload| / BLOCK * BLOCK]
  }

  /** The checksum test. */
  predicate ChecksumOk(payload: seq<bv8>, seed: bv32, checksum: bv32) {
    Add32(checksum, Sum(Decrypt(WholePart(payload), seed))) == 0
  }

  method G5DecryptPayload(payload: seq<bv8>, seed: bv32, checksum: bv32) returns (out: array<bv8>, ok: bool)
    ensures fresh(out)
    ensures out[..] == Decrypt(WholePart(payload), seed)
    ensures ok == ChecksumOk(payload, seed, checksum)
  {
    hide Ror32, WordAt, XorBlock, BlockSum, Octets, Sum, Key, Decrypt, Add32;
    var nblocks := |payload| / BLOCK;
    ghost var cipher := WholePart(payload);
    out := new bv8[nblocks * BLOCK](i requires 0 <= i < nblocks * BLOCK => payload[i]);
    assert out[..] == cipher;
    var k := seed;
    var acc: bv32 := 0;
    EmptyState(seed);
    for i := 0 to nblocks
      invariant i * BLOCK <= out.Length
      invariant Whole(cipher[..i * BLOCK])
      invariant out[..] == Decrypt(cipher[..i * BLOCK], seed) + cipher[i * BLOCK..]
      invariant k == Key(Decrypt(cipher[..i * BLOCK], seed), seed)
      invariant acc == Sum(Decrypt(cipher[..i * BLOCK], seed))
    {
      var o := i * BLOCK;
      ghost var done := Decrypt(cipher[..o], seed);
      ghost var plain := XorBlock(cipher[o..o + BLOCK], k);
      InPlace(out[..], done, cipher, o);
      var sum := DecryptBlock(out, o, k);
      DecryptNext(cipher, o, seed);
      NextKey(done, plain, seed);
      assert out[..] == (done + plain) + cipher[o + BLOCK..];
      assert (i + 1) * BLOCK == o + BLOCK;
      acc := Add32(acc, sum);
      k := Add32(Ror32(k, 15), acc);
    }
    assert cipher[..nblocks * BLOCK] == cipher;
    ok := Add32(checksum, acc) == 0;
  }

  lemma InPlace(out: seq<bv8>, done: seq<bv8>, cipher: seq<bv8>, o: nat)
    requires |done| == o && o + BLOCK <= |cipher| && out == done + cipher[o..]
    ensures out[..o] == done && out[o..o + BLOCK] == cipher[o..o + BLOCK] && out[o + BLOCK..] == cipher[o + BLOCK..]
  {
  }

  lemma EmptyState(seed: bv32)
    ensures Sum([]) == 0 && Key([], seed) == seed
  {
  }

  lemma FourSplices(s: seq<bv8>, o: nat, w0: bv32, w1: bv32, w2: bv32, w3: bv32)
    requires o + BLOCK <= |s|
    ensures var s1 := Splice(s, o, Octets(w0));
            var s2 := Splice(s1, o + 4, Octets(w1));
            var s3 := Splice(s2, o + 8, Octets(w2));
            Splice(s3, o + 12, Octets(w3)) == s[..o] + Join(w0, w1, w2, w3) + s[o + BLOCK..]
  {
    hide Octets;
    var x0, x1, x2, x3 := Octets(w0), Octets(w1), Octets(w2), Octets(w3);
    var s1 := Splice(s, o, x0);
    NextSplice(s, o, s[..o] + x0, 4, x1);
    NextSplice(s, o, s[..o] + x0 + x1, 8, x2);
    NextSplice(s, o, s[..o] + x0 + x1 + x2, 12, x3);
    assert s[..o] + x0 + x1 + x2 + x3 == s[..o] + Join(w0, w1, w2, w3);
  }

  /** Splicing right after what has been spliced so far. */
  lemma NextSplice(s: seq<bv8>, o: nat, done: seq<bv8>, d: nat, x: seq<bv8>)
    requires |done| == o + d && |x| == 4 && o + d + 4 <= |s|
    ensures Splice(done + s[o + d..], o + d, x) == done + x + s[o + d + 4..]
  {
    assert (done + s[o + d..])[..o + d] == done;
    assert (done + s[o + d..])[o + d + 4..] == s[o + d + 4..];
  }

  lemma WordWithin(s: seq<bv8>, o: nat, d: nat)
    requires o + BLOCK <= |s| && d + 4 <= BLOCK
    ensures WordAt(s, o + d) == WordAt(s[o..o + BLOCK], d)
  {
    hide Word;
  }

  lemma WordsWithin(s: seq<bv8>, o: nat)
    requires o + BLOCK <= |s|
    ensures var b := s[o..o + BLOCK];
            && WordAt(s, o) == WordAt(b, 0) && WordAt(s, o + 4) == WordAt(b, 4)
            && WordAt(s, o + 8) == WordAt(b, 8) && WordAt(s, o + 12) == WordAt(b, 12)
  {
    hide WordAt;
    WordWithin(s, o, 0);
    WordWithin(s, o, 4);
    WordWithin(s, o, 8);
    WordWithin(s, o, 12);
  }

  /** One round of the loop: four words read, unmasked and written back in place. */
  method DecryptBlock(out: array<bv8>, o: nat, k: bv32) returns (sum: bv32)
    requires o + BLOCK <= out.Length
    modifies out
    ensures out[..] == old(out[..o]) + XorBlock(old(out[o..o + BLOCK]), k) + old(out[o + BLOCK..])
    ensures sum == BlockSum(XorBlock(old(out[o..o + BLOCK]), k))
  {
    hide Ror32, WordAt, Octets, Join, Splice, Add32, Xor32;
    ghost var s := out[..];
    ghost var b := s[o..o + BLOCK];
    WordsWithin(s, o);
    var w0 := LEu32(out, o);
    var w1 := LEu32(out, o + 4);
    var w2 := LEu32(out, o + 8);
    var w3 := LEu32(out, o + 12);
    var p0, p1, p2, p3 := Xor32(Ror32(k, 6), w0), Xor32(Ror32(k, 19), w1), Xor32(Ror32(k, 1), w2),
      Xor32(Ror32(k, 7), w3);
    PutLEu32(out, o, p0);
    PutLEu32(out, o + 4, p1);
    PutLEu32(out, o + 8, p2);
    PutLEu32(out, o + 12, p3);
    FourSplices(s, o, p0, p1, p2, p3);
    JoinWords(p0, p1, p2, p3);
    sum := Add32(Add32(Add32(p0, p1), p2), p3);
    assert s[..o] == old(out[..o]) && b == old(out[o..o + BLOCK]) && s[o + BLOCK..] == old(out[o + BLOCK..]);
  }

  lemma DecryptNext(cipher: seq<bv8>, o: nat, seed: bv32)
    requires Whole(cipher) && o % BLOCK == 0 && o + BLOCK <= |cipher|
    ensures Whole(cipher[..o]) && Whole(cipher[..o + BLOCK])
    ensures var p := Decrypt(cipher[..o], seed);
            Decrypt(cipher[..o + BLOCK], seed) == p + XorBlock(cipher[o..o + BLOCK], Key(p, seed))
  {
    hide XorBlock, Key;
    var c := cipher[..o + BLOCK];
    assert Init(c) == cipher[..o] && Last(c) == cipher[o..o + BLOCK];
  }

  lemma NextKey(p: seq<bv8>, b: seq<bv8>, seed: bv32)
    requires Whole(p) && |b| == BLOCK
    ensures Whole(p + b) && Sum(p + b) == Add32(Sum(p), BlockSum(b))
    ensures Key(p + b, seed) == Add32(Ror32(Key(p, seed), 15), Sum(p + b))
  {
    hide Ror32, BlockSum, Add32;
    Snoc(p, b);
  }

  /** Exactly one checksum validates a payload: the negated sum of all its plaintext words. */
  lemma ExactlyOneChecksum(payload: seq<bv8>, seed: bv32, checksum: bv32)
    ensures ChecksumOk(payload, seed, checksum)
            <==> checksum == Neg32(Sum(Decrypt(WholePart(payload), seed)))
  {
    hide Sum, Decrypt, Add32, Neg32;
    NegUnique(checksum, Sum(Decrypt(WholePart(payload), seed)));
  }

  lemma NegUnique(c: bv32, s: bv32)
    ensures Add32(c, s) == 0 <==> c == Neg32(s)
  {
    if Add32(c, s) == 0 {
      AddThenSub(c, s);
    }
    if c == Neg32(s) {
      NegThenAdd(s);
    }
  }

  lemma AddThenSub(c: bv32, s: bv32)
    ensures (c + s) - s == c
  {
  }

  lemma NegThenAdd(s: bv32)
    ensures (0 - s) + s == 0
  {
  }

  /** What a sender enciphers, with its checksum, is what the receiver gets back. */
  lemma SenderReceiver(plain: seq<bv8>, tail: seq<bv8>, seed: bv32)
    requires Whole(plain) && |tail| < BLOCK
    ensures var payload := Encrypt(plain, seed) + tail;
            && Decrypt(WholePart(payload), seed) == plain
            && ChecksumOk(payload, seed, Neg32(Sum(plain)))
  {
    hide Encrypt, Decrypt, Sum, Add32, Neg32;
    var payload := Encrypt(plain, seed) + tail;
    assert |payload| / BLOCK * BLOCK == |plain|;
    assert WholePart(payload) == Encrypt(plain, seed);
    DecryptEncrypt(plain, seed);
    ExactlyOneChecksum(payload, seed, Neg32(Sum(plain)));
  }

  // ---- Word by word ----

  /** A word's lowest octet comes first. */
  lemma WordExactly(b: seq<bv8>, o: nat)
    requires o + 4 <= |b|
    ensures var w := WordAt(b, o);
            && w & 0xff == b[o] as bv32 && (w >> 8) & 0xff == b[o + 1] as bv32
            && (w >> 16) & 0xff == b[o + 2] as bv32 && w >> 24 == b[o + 3] as bv32
  {
    WordParts(b[o], b[o + 1], b[o + 2], b[o + 3]);
    hide Word;
  }

  lemma WordParts(b0: bv8, b1: bv8, b2: bv8, b3: bv8)
    ensures var w := Word(b0, b1, b2, b3);
            && w & 0xff == b0 as bv32 && (w >> 8) & 0xff == b1 as bv32
            && (w >> 16) & 0xff == b2 as bv32 && w >> 24 == b3 as bv32
  {
  }

  /** One block: each word masked with the key rotated by 6, 19, 1 or 7; then the next key is
      the key rotated by 15 plus the sum of all plaintext words so far. */
  ghost predicate Round(k: bv32, sum: bv32, c0: bv32, c1: bv32, c2: bv32, c3: bv32,
                        p0: bv32, p1: bv32, p2: bv32, p3: bv32, key: bv32, total: bv32) {
    && p0 == Xor32(Ror32(k, 6), c0) && p1 == Xor32(Ror32(k, 19), c1)
    && p2 == Xor32(Ror32(k, 1), c2) && p3 == Xor32(Ror32(k, 7), c3)
    && total == Add32(sum, Add32(Add32(Add32(p0, p1), p2), p3)) && key == Add32(Ror32(k, 15), total)
  }

  ghost predicate RoundAt(cipher: seq<bv8>, plain: seq<bv8>, keys: seq<bv32>, sums: seq<bv32>, j: nat)
    requires |plain| == |cipher| && 16 * j + 16 <= |cipher| && j + 1 < |keys| && |sums| == |keys|
  {
    var o := 16 * j;
    Round(keys[j], sums[j], WordAt(cipher, o), WordAt(cipher, o + 4), WordAt(cipher, o + 8), WordAt(cipher, o + 12),
          WordAt(plain, o), WordAt(plain, o + 4), WordAt(plain, o + 8), WordAt(plain, o + 12),
          keys[j + 1], sums[j + 1])
  }

  ghost predicate Rounds(cipher: seq<bv8>, plain: seq<bv8>, keys: seq<bv32>, sums: seq<bv32>, seed: bv32) {
    && |plain| == |cipher| && 16 * (|keys| - 1) == |cipher| && |sums| == |keys|
    && keys[0] == seed && sums[0] == 0
    && forall j :: 0 <= j < |keys| - 1 ==> RoundAt(cipher, plain, keys, sums, j)
  }

  /** The plaintext is what the rounds from the seed give, and a checksum fits exactly when it
      cancels the sum of all plaintext words. */
  lemma {:induction false} DecryptExactly(cipher: seq<bv8>, seed: bv32) returns (keys: seq<bv32>, sums: seq<bv32>)
    requires |cipher| % 16 == 0
    ensures Rounds(cipher, Decrypt(cipher, seed), keys, sums, seed)
    ensures var p := Decrypt(cipher, seed); keys[|keys| - 1] == Key(p, seed) && sums[|sums| - 1] == Sum(p)
  {
    hide XorBlock, BlockSum, RoundAt;
    if cipher == [] {
      keys, sums := [seed], [0];
    } else {
      var init, p := Init(cipher), Decrypt(Init(cipher), seed);
      var b := XorBlock(Last(cipher), Key(p, seed));
      var ks, ss := DecryptExactly(init, seed);
      NextKey(p, b, seed);
      keys, sums := ks + [Key(p + b, seed)], ss + [Sum(p + b)];
      assert init + Last(cipher) == cipher;
      forall j | 0 <= j < |ks| - 1 ensures RoundAt(cipher, p + b, keys, sums, j) {
        assert RoundAt(init, p, ks, ss, j);
        RoundStays(init, Last(cipher), p, b, ks, Key(p + b, seed), ss, Sum(p + b), j);
      }
      LastRound(init, Last(cipher), p, ks, ss, seed);
    }
  }

  lemma RoundStays(cipher: seq<bv8>, c: seq<bv8>, plain: seq<bv8>, p: seq<bv8>, keys: seq<bv32>, key: bv32,
                   sums: seq<bv32>, sum: bv32, j: nat)
    requires |plain| == |cipher| && |p| == |c| && 16 * j + 16 <= |cipher| && j + 1 < |keys| && |sums| == |keys|
    requires RoundAt(cipher, plain, keys, sums, j)
    ensures RoundAt(cipher + c, plain + p, keys + [key], sums + [sum], j)
  {
    hide Round, WordAt;
    BlockStays(cipher, c, 16 * j);
    BlockStays(plain, p, 16 * j);
  }

  lemma BlockStays(s: seq<bv8>, t: seq<bv8>, o: nat)
    requires o + 16 <= |s|
    ensures WordAt(s + t, o) == WordAt(s, o) && WordAt(s + t, o + 4) == WordAt(s, o + 4)
    ensures WordAt(s + t, o + 8) == WordAt(s, o + 8) && WordAt(s + t, o + 12) == WordAt(s, o + 12)
  {
    hide Word;
  }

  lemma BlockAfter(s: seq<bv8>, t: seq<bv8>)
    requires |t| == 16
    ensures WordAt(s + t, |s|) == WordAt(t, 0) && WordAt(s + t, |s| + 4) == WordAt(t, 4)
    ensures WordAt(s + t, |s| + 8) == WordAt(t, 8) && WordAt(s + t, |s| + 12) == WordAt(t, 12)
  {
    hide Word;
  }

  lemma RoundOf(p: seq<bv8>, c: seq<bv8>, seed: bv32)
    requires Whole(p) && |c| == 16
    ensures var k := Key(p, seed);
            var b := XorBlock(c, k);
            Whole(p + b)
            && Round(k, Sum(p), WordAt(c, 0), WordAt(c, 4), WordAt(c, 8), WordAt(c, 12),
                     WordAt(b, 0), WordAt(b, 4), WordAt(b, 8), WordAt(b, 12), Key(p + b, seed), Sum(p + b))
  {
    hide WordAt, XorBlock, Sum, Key, Ror32, Xor32, Add32;
    var k := Key(p, seed);
    var b := XorBlock(c, k);
    NextKey(p, b, seed);
    XorBlockWords(c, k);
  }

  lemma LastRound(cipher: seq<bv8>, c: seq<bv8>, p: seq<bv8>, keys: seq<bv32>, sums: seq<bv32>, seed: bv32)
    requires Whole(cipher) && |p| == |cipher| && |c| == 16 && 16 * (|keys| - 1) == |cipher| && |sums| == |keys|
    requires keys[|keys| - 1] == Key(p, seed) && sums[|keys| - 1] == Sum(p)
    ensures var b := XorBlock(c, Key(p, seed));
            Whole(p + b) && RoundAt(cipher + c, p + b, keys + [Key(p + b, seed)], sums + [Sum(p + b)], |keys| - 1)
  {
    hide Round, WordAt, XorBlock, Sum, Key;
    var b := XorBlock(c, Key(p, seed));
    BlockAfter(cipher, c);
    BlockAfter(p, b);
    RoundOf(p, c, seed);
  }

  lemma WholePartExactly(payload: seq<bv8>)
    ensures var cipher := payload[..|payload| - |payload| % 16];
            |cipher| % 16 == 0 && WholePart(payload) == cipher
  {
  }

  /** A payload is accepted exactly when its checksum cancels the sum the rounds end with; an
      unfinished last block is ignored. */
  lemma AcceptedExactly(payload: seq<bv8>, seed: bv32, checksum: bv32) returns (keys: seq<bv32>, sums: seq<bv32>)
    ensures var cipher := payload[..|payload| - |payload| % 16];
            |cipher| % 16 == 0 && Rounds(cipher, Decrypt(cipher, seed), keys, sums, seed)
    ensures |sums| > 0 && (ChecksumOk(payload, seed, checksum) <==> Add32(checksum, sums[|sums| - 1]) == 0)
  {
    hide WholePart, Decrypt, Sum, Key, Add32, RoundAt;
    WholePartExactly(payload);
    keys, sums := DecryptExactly(WholePart(payload), seed);
  }
}
