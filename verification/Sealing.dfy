/** Sealing files in chunks under a counting nonce. */
module Sealing {
  import opened Prelude

  const CHUNK_SIZE: nat := 104
  const OVERHEAD_SIZE: nat := 40
  const PIECE_SIZE: nat := CHUNK_SIZE - OVERHEAD_SIZE
  const NONCE_SIZE: nat := 24
  const LIMB: nat := 0x1_0000_0000_0000_0000
  const NONCES: nat := 0x1_0000_0000_0000_0000_0000_0000_0000_0000_0000_0000_0000_0000

  // ---- Big-endian numbers -----------------------------------------------------------------------

  function Value(s: Bytes): nat {
    if s == [] then 0 else 256 * Value(s[..|s| - 1]) + s[|s| - 1]
  }

  function ToBytes(v: nat, n: nat): (s: Bytes)
    ensures |s| == n
  {
    if n == 0 then [] else ToBytes(v / 256, n - 1) + [v % 256]
  }

  function Power(n: nat): nat {
    if n == 0 then 1 else 256 * Power(n - 1)
  }

  lemma {:induction false} ValueOfToBytes(v: nat, n: nat)
    requires v < Power(n)
    ensures Value(ToBytes(v, n)) == v
  {
    if n > 0 {
      ValueOfToBytes(v / 256, n - 1);
      var s := ToBytes(v, n);
      assert s[..n - 1] == ToBytes(v / 256, n - 1);
    }
  }

  lemma {:induction false} ToBytesOfValue(s: Bytes)
    ensures ToBytes(Value(s), |s|) == s && Value(s) < Power(|s|)
  {
    if s != [] {
      ToBytesOfValue(s[..|s| - 1]);
      assert s == s[..|s| - 1] + [s[|s| - 1]];
    }
  }

  lemma {:induction false} ValueOfConcat(a: Bytes, b: Bytes)
    ensures Value(a + b) == Value(a) * Power(|b|) + Value(b)
  {
    if b == [] {
      assert a + b == a;
    } else {
      var front := b[..|b| - 1];
      ValueOfConcat(a, front);
      assert (a + b)[..|a + b| - 1] == a + front;
      assert Value(a) * Power(|b|) == 256 * (Value(a) * Power(|front|));
    }
  }

  lemma LimbPower()
    ensures Power(8) == LIMB
  {
    assert Power(2) == 0x1_0000;
    assert Power(4) == 0x1_0000_0000;
    assert Power(6) == 0x1_0000_0000_0000;
  }

  /** A nonce is three limbs. */
  lemma Limbs(s: Bytes)
    requires |s| == NONCE_SIZE
    ensures Value(s) == Joined(Value(s[..8]), Value(s[8..16]), Value(s[16..]))
    ensures Value(s[..8]) < LIMB && Value(s[8..16]) < LIMB && Value(s[16..]) < LIMB
    ensures Value(s) < NONCES
  {
    LimbPower();
    assert s == s[..8] + s[8..16] + s[16..];
    ValueOfConcat(s[..8], s[8..16]);
    ValueOfConcat(s[..8] + s[8..16], s[16..]);
    ToBytesOfValue(s[..8]);
    ToBytesOfValue(s[8..16]);
    ToBytesOfValue(s[16..]);
  }

  /** The successor of a nonce as a 192-bit counter. */
  function NextNonce(nonce: Bytes): Bytes {
    ToBytes((Value(nonce) + 1) % NONCES, NONCE_SIZE)
  }

  lemma EqualValues(a: Bytes, b: Bytes)
    requires |a| == |b| && Value(a) == Value(b)
    ensures a == b
  {
    ToBytesOfValue(a);
    ToBytesOfValue(b);
  }

  /** The carry through three wrapping 64-bit limbs adds one modulo 2^192. */
  method UpdateNonce(base: Bytes) returns (next: Bytes)
    requires |base| == NONCE_SIZE
    ensures |next| == NONCE_SIZE && Value(next) == (Value(base) + 1) % NONCES
    ensures next == NextNonce(base)
  {
    var limb1, limb2, limb3 := Value(base[..8]), Value(base[8..16]), Value(base[16..]);
    Limbs(base);
    if limb3 == LIMB - 1 {
      if limb2 == LIMB - 1 {
        limb1 := Increment(limb1);
      }
      limb2 := Increment(limb2);
    }
    limb3 := Increment(limb3);
    next := ToBytes(limb1, 8) + ToBytes(limb2, 8) + ToBytes(limb3, 8);
    LimbsWritten(next, limb1, limb2, limb3);
    CarryIsNext(base, next, Value(base[..8]), Value(base[8..16]), Value(base[16..]));
  }

  /** A `uint64` increment wraps. */
  function Increment(limb: nat): (next: nat)
    ensures limb < LIMB ==> next < LIMB
  {
    if limb == LIMB - 1 then 0 else limb + 1
  }

  /** The carry of the three increments is addition of one modulo 2^192. */
  lemma Carry(a: nat, b: nat, c: nat)
    requires a < LIMB && b < LIMB && c < LIMB
    ensures var b' := if c == LIMB - 1 then Increment(b) else b;
            var a' := if c == LIMB - 1 && b == LIMB - 1 then Increment(a) else a;
            Joined(a', b', Increment(c)) == (Joined(a, b, c) + 1) % NONCES
  {
  }

  ghost function Joined(a: nat, b: nat, c: nat): nat {
    (a * LIMB + b) * LIMB + c
  }

  lemma CarryIsNext(base: Bytes, next: Bytes, a: nat, b: nat, c: nat)
    requires |base| == |next| == NONCE_SIZE
    requires a < LIMB && b < LIMB && c < LIMB && Value(base) == Joined(a, b, c)
    requires var b' := if c == LIMB - 1 then Increment(b) else b;
             var a' := if c == LIMB - 1 && b == LIMB - 1 then Increment(a) else a;
             Value(next) == Joined(a', b', Increment(c))
    ensures Value(next) == (Value(base) + 1) % NONCES && next == NextNonce(base)
  {
    Carry(a, b, c);
    NextNonceValue(base);
    EqualValues(next, NextNonce(base));
  }

  lemma LimbsWritten(s: Bytes, limb1: nat, limb2: nat, limb3: nat)
    requires limb1 < LIMB && limb2 < LIMB && limb3 < LIMB
    requires s == ToBytes(limb1, 8) + ToBytes(limb2, 8) + ToBytes(limb3, 8)
    ensures Value(s) == Joined(limb1, limb2, limb3)
  {
    LimbPower();
    ValueOfToBytes(limb1, 8);
    ValueOfToBytes(limb2, 8);
    ValueOfToBytes(limb3, 8);
    assert s[..8] == ToBytes(limb1, 8) && s[8..16] == ToBytes(limb2, 8) && s[16..] == ToBytes(limb3, 8);
    Limbs(s);
  }

  lemma NoncePower()
    ensures Power(NONCE_SIZE) == NONCES
  {
    LimbPower();
    PowerSum(8, 8);
    PowerSum(16, 8);
  }

  lemma {:induction false} PowerSum(a: nat, b: nat)
    ensures Power(a + b) == Power(a) * Power(b)
  {
    if b > 0 {
      PowerSum(a, b - 1);
    }
  }

  lemma NextNonceValue(nonce: Bytes)
    ensures Value(NextNonce(nonce)) == (Value(nonce) + 1) % NONCES
  {
    NoncePower();
    ValueOfToBytes((Value(nonce) + 1) % NONCES, NONCE_SIZE);
  }

  /** What is left of a schedule after one read. */
  function Later<T>(schedule: seq<T>): seq<T> {
    if schedule == [] then [] else schedule[1..]
  }

  // ---- Chunks -----------------------------------------------------------------------------------

  type Key = nat

  /** The authenticated cipher: `box` adds 16 bytes, and `unbox` opens exactly what `box` made. */
  datatype Cipher = Cipher(box: (Key, Bytes, Bytes) -> Bytes, unbox: (Key, Bytes, Bytes) -> Option<Bytes>) {
    ghost predicate BoxLaw(key: Key, nonce: Bytes, text: Bytes) {
      unbox(key, nonce, box(key, nonce, text)) == Some(text) && |box(key, nonce, text)| == |text| + 16
    }

    ghost predicate UnboxLaw(key: Key, nonce: Bytes, body: Bytes) {
      unbox(key, nonce, body).Some? ==> body == box(key, nonce, unbox(key, nonce, body).value)
    }

    ghost predicate Lawful() {
      && (forall k: Key, n: Bytes, m: Bytes {:trigger BoxLaw(k, n, m)} :: BoxLaw(k, n, m))
      && (forall k: Key, n: Bytes, b: Bytes {:trigger UnboxLaw(k, n, b)} :: UnboxLaw(k, n, b))
    }

    function SealChunk(key: Key, nonce: Bytes, piece: Bytes): Bytes {
      nonce + box(key, nonce, piece)
    }

    /** The chunks that `pieces` make under `nonces`. */
    function Chunks(key: Key, nonces: seq<Bytes>, pieces: seq<Bytes>): Bytes
      requires |nonces| == |pieces|
    {
      if pieces == [] then []
      else SealChunk(key, nonces[0], pieces[0]) + Chunks(key, nonces[1..], pieces[1..])
    }

    /** The sealed file: 64-byte pieces, each under the next nonce. */
    function Sealed(key: Key, nonce: Bytes, text: Bytes): Bytes
      decreases |text|
    {
      if text == [] then []
      else
        var n := if |text| < PIECE_SIZE then |text| else PIECE_SIZE;
        SealChunk(key, nonce, text[..n]) + Sealed(key, NextNonce(nonce), text[n..])
    }

    /** What `Open` does with any sequence of chunks that its reads return; `faults` tells which of the reads report
        an error too. */
    function OpeningReads(key: Key, chunks: seq<Bytes>, faults: seq<bool>): Outcome {
      if chunks == [] then Opened([])
      else if faults != [] && faults[0] then BadRead([])
      else if |chunks[0]| < NONCE_SIZE then Panic([])
      else
        match unbox(key, chunks[0][..NONCE_SIZE], chunks[0][NONCE_SIZE..])
        case None => BadChunk([])
        case Some(piece) => OpeningReads(key, chunks[1..], Later(faults)).Prepend(piece)
    }

    /** What `Open` does with any ciphertext at all, read in full chunks. */
    function Opening(key: Key, sealed: Bytes): Outcome
      decreases |sealed|
    {
      if sealed == [] then Opened([])
      else
        var n := if |sealed| < CHUNK_SIZE then |sealed| else CHUNK_SIZE;
        if n < NONCE_SIZE then Panic([])
        else
          match unbox(key, sealed[..NONCE_SIZE], sealed[NONCE_SIZE..n])
          case None => BadChunk([])
          case Some(piece) => Opening(key, sealed[n..]).Prepend(piece)
    }
  }

  /** `Panic` is the out-of-range slice of a last chunk shorter than a nonce; what was written before an error stays. */
  datatype Outcome = Opened(text: Bytes) | BadChunk(text: Bytes) | BadRead(text: Bytes) | Panic(text: Bytes) {
    function Prepend(piece: Bytes): Outcome {
      match this
      case Opened(t) => Opened(piece + t)
      case BadChunk(t) => BadChunk(piece + t)
      case BadRead(t) => BadRead(piece + t)
      case Panic(t) => Panic(piece + t)
    }
  }

  /** Opening a sealed file writes exactly the file, for every key, nonce and content. */
  lemma {:induction false} RoundTrip(c: Cipher, key: Key, nonce: Bytes, text: Bytes)
    requires c.Lawful() && |nonce| == NONCE_SIZE
    ensures c.Opening(key, c.Sealed(key, nonce, text)) == Opened(text)
    decreases |text|
  {
    if text != [] {
      var n := if |text| < PIECE_SIZE then |text| else PIECE_SIZE;
      var piece, rest := text[..n], text[n..];
      assert c.BoxLaw(key, nonce, piece);
      var chunk, tail := c.SealChunk(key, nonce, piece), c.Sealed(key, NextNonce(nonce), rest);
      RoundTrip(c, key, NextNonce(nonce), rest);
      var sealed := chunk + tail;
      assert c.Sealed(key, nonce, text) == sealed;
      assert rest == [] ==> sealed == chunk;
      assert sealed[..|chunk|] == chunk && sealed[|chunk|..] == tail;
      assert sealed[..NONCE_SIZE] == nonce && sealed[NONCE_SIZE..|chunk|] == c.box(key, nonce, piece);
      assert piece + rest == text;
    }
  }

  lemma Pieces(length: nat, n: nat)
    requires 0 < n <= length && (n == PIECE_SIZE || n == length < PIECE_SIZE)
    ensures (length + PIECE_SIZE - 1) / PIECE_SIZE == 1 + (length - n + PIECE_SIZE - 1) / PIECE_SIZE
  {
  }

  /** Every 64 bytes, the last ones included, cost 40 bytes more. */
  lemma {:induction false} SealedLength(c: Cipher, key: Key, nonce: Bytes, text: Bytes)
    requires c.Lawful() && |nonce| == NONCE_SIZE
    ensures |c.Sealed(key, nonce, text)| == |text| + OVERHEAD_SIZE * ((|text| + PIECE_SIZE - 1) / PIECE_SIZE)
    decreases |text|
  {
    if text != [] {
      var n := if |text| < PIECE_SIZE then |text| else PIECE_SIZE;
      SealedLength(c, key, NextNonce(nonce), text[n..]);
      Pieces(|text|, n);
      assert c.BoxLaw(key, nonce, text[..n]);
      assert |c.Sealed(key, nonce, text)| == NONCE_SIZE + (n + 16) + |c.Sealed(key, NextNonce(nonce), text[n..])|;
    }
  }

  function NonceAt(base: Bytes, i: nat): Bytes {
    ToBytes((Value(base) + i) % NONCES, NONCE_SIZE)
  }

  /** Chunk `i` of `sealed`, which starts at byte `104 * i`, carries `nonce`. */
  ghost predicate CarriesNonce(sealed: Bytes, i: nat, nonce: Bytes) {
    CHUNK_SIZE * i + NONCE_SIZE <= |sealed| && sealed[CHUNK_SIZE * i..CHUNK_SIZE * i + NONCE_SIZE] == nonce
  }

  /** Chunk `i` of a sealed file carries the base nonce plus `i` modulo 2^192. */
  lemma {:induction false} ChunkNonce(c: Cipher, key: Key, base: Bytes, text: Bytes, i: nat)
    requires c.Lawful() && |base| == NONCE_SIZE && PIECE_SIZE * i < |text|
    ensures CarriesNonce(c.Sealed(key, base, text), i, NonceAt(base, i))
    decreases i
  {
    if i == 0 {
      FirstChunkNonce(c, key, base, text);
    } else {
      var chunk, tail := c.SealChunk(key, base, text[..PIECE_SIZE]), c.Sealed(key, NextNonce(base), text[PIECE_SIZE..]);
      assert c.Sealed(key, base, text) == chunk + tail;
      assert |chunk| == CHUNK_SIZE by {
        assert c.BoxLaw(key, base, text[..PIECE_SIZE]);
      }
      assert CarriesNonce(tail, i - 1, NonceAt(base, i)) by {
        ChunkNonce(c, key, NextNonce(base), text[PIECE_SIZE..], i - 1);
        NonceShift(base, i);
      }
      LaterChunk(c.Sealed(key, base, text), chunk, tail, i, NonceAt(base, i));
    }
  }

  lemma FirstChunkNonce(c: Cipher, key: Key, base: Bytes, text: Bytes)
    requires |base| == NONCE_SIZE && text != []
    ensures CarriesNonce(c.Sealed(key, base, text), 0, NonceAt(base, 0))
  {
    FirstNonce(base);
    assert c.Sealed(key, base, text)[..NONCE_SIZE] == base;
  }

  lemma LaterChunk(sealed: Bytes, chunk: Bytes, tail: Bytes, i: nat, nonce: Bytes)
    requires i >= 1 && |chunk| == CHUNK_SIZE && sealed == chunk + tail && CarriesNonce(tail, i - 1, nonce)
    ensures CarriesNonce(sealed, i, nonce)
  {
    var at := CHUNK_SIZE * (i - 1);
    assert sealed[CHUNK_SIZE + at..CHUNK_SIZE + at + NONCE_SIZE] == tail[at..at + NONCE_SIZE];
  }

  lemma FirstNonce(base: Bytes)
    requires |base| == NONCE_SIZE
    ensures NonceAt(base, 0) == base
  {
    NonceBound(base);
    NonceAtValue(base, 0);
    SmallRemainder(Value(base));
    EqualValues(NonceAt(base, 0), base);
  }

  lemma SmallRemainder(v: nat)
    requires v < NONCES
    ensures (v + 0) % NONCES == v
  {
  }

  lemma NonceBound(base: Bytes)
    requires |base| == NONCE_SIZE
    ensures Value(base) < NONCES
  {
    Limbs(base);
  }

  lemma NonceAtValue(base: Bytes, i: nat)
    ensures Value(NonceAt(base, i)) == (Value(base) + i) % NONCES && |NonceAt(base, i)| == NONCE_SIZE
  {
    NoncePower();
    ValueOfToBytes((Value(base) + i) % NONCES, NONCE_SIZE);
  }

  lemma NonceShift(base: Bytes, i: nat)
    requires i >= 1
    ensures NonceAt(NextNonce(base), i - 1) == NonceAt(base, i)
  {
    NextNonceValue(base);
    RemainderStep(Value(base), i);
  }

  /** No nonce repeats within 2^192 chunks. */
  lemma NoncesDistinct(base: Bytes, i: nat, j: nat)
    requires i < j < i + NONCES
    ensures NonceAt(base, i) != NonceAt(base, j)
  {
    NonceAtValue(base, i);
    NonceAtValue(base, j);
    DistinctRemainders(Value(base) + i, Value(base) + j);
  }

  lemma DistinctRemainders(a: nat, b: nat)
    requires a < b < a + NONCES
    ensures a % NONCES != b % NONCES
  {
  }

  lemma RemainderStep(v: nat, i: nat)
    requires i >= 1
    ensures ((v + 1) % NONCES + (i - 1)) % NONCES == (v + i) % NONCES
  {
  }

  // ---- What opens -------------------------------------------------------------------------------

  function Flat(pieces: seq<Bytes>): Bytes {
    if pieces == [] then [] else pieces[0] + Flat(pieces[1..])
  }

  /** Every piece has 64 bytes, but the last may have fewer. */
  ghost predicate FullButLast(pieces: seq<Bytes>) {
    forall k | 0 <= k < |pieces| :: |pieces[k]| == PIECE_SIZE || (k == |pieces| - 1 && |pieces[k]| < PIECE_SIZE)
  }

  /** `sealed` is the chunks that the pieces of `text` make under the nonces, full pieces but the last. */
  ghost predicate MadeOf(c: Cipher, key: Key, sealed: Bytes, nonces: seq<Bytes>, pieces: seq<Bytes>, text: Bytes) {
    && |nonces| == |pieces| && (forall n | n in nonces :: |n| == NONCE_SIZE)
    && FullButLast(pieces) && sealed == c.Chunks(key, nonces, pieces) && text == Flat(pieces)
  }

  lemma {:induction false} MadeOpens(c: Cipher, key: Key, nonces: seq<Bytes>, pieces: seq<Bytes>)
    requires c.Lawful() && |nonces| == |pieces| && (forall n | n in nonces :: |n| == NONCE_SIZE) && FullButLast(pieces)
    ensures c.Opening(key, c.Chunks(key, nonces, pieces)) == Opened(Flat(pieces))
  {
    if pieces != [] {
      MadeOpens(c, key, nonces[1..], pieces[1..]);
      var chunk, later := c.SealChunk(key, nonces[0], pieces[0]), c.Chunks(key, nonces[1..], pieces[1..]);
      assert nonces[0] in nonces;
      assert |pieces| == 1 ==> later == [];
      FirstChunk(c, key, chunk + later, nonces[0], pieces[0]);
      assert (chunk + later)[|chunk|..] == later;
    }
  }

  /** A well-sized first chunk is read whole and opens. */
  lemma FirstChunk(c: Cipher, key: Key, sealed: Bytes, nonce: Bytes, piece: Bytes)
    requires c.Lawful() && |nonce| == NONCE_SIZE && |piece| <= PIECE_SIZE && c.SealChunk(key, nonce, piece) <= sealed
    requires |piece| == PIECE_SIZE || |sealed| == |c.SealChunk(key, nonce, piece)|
    ensures c.Opening(key, sealed) == c.Opening(key, sealed[|c.SealChunk(key, nonce, piece)|..]).Prepend(piece)
  {
    var chunk := c.SealChunk(key, nonce, piece);
    assert c.BoxLaw(key, nonce, piece);
    assert sealed[..|chunk|] == chunk;
    assert sealed[..NONCE_SIZE] == nonce && sealed[NONCE_SIZE..|chunk|] == c.box(key, nonce, piece);
  }

  lemma {:induction false} OpensMade(c: Cipher, key: Key, sealed: Bytes)
    returns (nonces: seq<Bytes>, pieces: seq<Bytes>)
    requires c.Lawful() && c.Opening(key, sealed).Opened?
    ensures MadeOf(c, key, sealed, nonces, pieces, c.Opening(key, sealed).text)
    decreases |sealed|
  {
    if sealed == [] {
      return [], [];
    }
    var n := if |sealed| < CHUNK_SIZE then |sealed| else CHUNK_SIZE;
    var nonce := sealed[..NONCE_SIZE];
    var piece := c.unbox(key, nonce, sealed[NONCE_SIZE..n]).value;
    assert c.UnboxLaw(key, nonce, sealed[NONCE_SIZE..n]) && c.BoxLaw(key, nonce, piece);
    var laterNonces, laterPieces := OpensMade(c, key, sealed[n..]);
    assert sealed[n..] == [] ==> laterPieces == [] by {
      ChunksLength(c, key, laterNonces, laterPieces);
    }
    assert sealed == c.SealChunk(key, nonce, piece) + sealed[n..];
    nonces, pieces := [nonce] + laterNonces, [piece] + laterPieces;
    assert nonces[1..] == laterNonces && pieces[1..] == laterPieces;
  }

  /** Every piece costs 40 bytes. */
  lemma {:induction false} ChunksLength(c: Cipher, key: Key, nonces: seq<Bytes>, pieces: seq<Bytes>)
    requires c.Lawful() && |nonces| == |pieces| && forall n | n in nonces :: |n| == NONCE_SIZE
    ensures |c.Chunks(key, nonces, pieces)| == |Flat(pieces)| + OVERHEAD_SIZE * |pieces|
  {
    if pieces != [] {
      assert nonces[0] in nonces && c.BoxLaw(key, nonces[0], pieces[0]);
      ChunksLength(c, key, nonces[1..], pieces[1..]);
    }
  }

  /** A ciphertext opens to `text` exactly when it is made of boxed pieces of `text`, full ones but the last. */
  lemma OpensIff(c: Cipher, key: Key, sealed: Bytes, text: Bytes)
    requires c.Lawful()
    ensures c.Opening(key, sealed) == Opened(text)
            <==> exists nonces: seq<Bytes>, pieces: seq<Bytes> :: MadeOf(c, key, sealed, nonces, pieces, text)
  {
    if c.Opening(key, sealed) == Opened(text) {
      var nonces, pieces := OpensMade(c, key, sealed);
    }
    if nonces: seq<Bytes>, pieces: seq<Bytes> :| MadeOf(c, key, sealed, nonces, pieces, text) {
      MadeOpens(c, key, nonces, pieces);
    }
  }

  lemma LaterRemainder(n: nat)
    requires n >= CHUNK_SIZE
    ensures (n - CHUNK_SIZE) % CHUNK_SIZE == n % CHUNK_SIZE && n - n % CHUNK_SIZE >= CHUNK_SIZE
  {
  }

  /** How a ciphertext and its first `full` bytes open is settled by a full first chunk and the rest of each. */
  lemma FullChunkFirst(c: Cipher, key: Key, sealed: Bytes, full: nat)
    requires CHUNK_SIZE <= full <= |sealed|
    ensures var piece := c.unbox(key, sealed[..NONCE_SIZE], sealed[NONCE_SIZE..CHUNK_SIZE]);
            && (c.Opening(key, sealed).Panic? <==> piece.Some? && c.Opening(key, sealed[CHUNK_SIZE..]).Panic?)
            && (c.Opening(key, sealed[..full]).Opened?
                <==> piece.Some? && c.Opening(key, sealed[CHUNK_SIZE..][..full - CHUNK_SIZE]).Opened?)
  {
    var part := sealed[..full];
    assert part[CHUNK_SIZE..] == sealed[CHUNK_SIZE..][..full - CHUNK_SIZE];
    assert part[..NONCE_SIZE] == sealed[..NONCE_SIZE] && part[NONCE_SIZE..CHUNK_SIZE] == sealed[NONCE_SIZE..CHUNK_SIZE];
  }

  /** `Open` reaches the out-of-range slice exactly when the full chunks open and 1 to 23 bytes are left over. */
  lemma {:induction false} PanicIff(c: Cipher, key: Key, sealed: Bytes)
    requires c.Lawful()
    ensures c.Opening(key, sealed).Panic?
            <==> 0 < |sealed| % CHUNK_SIZE < NONCE_SIZE
                 && c.Opening(key, sealed[..|sealed| - |sealed| % CHUNK_SIZE]).Opened?
    decreases |sealed|
  {
    var full := |sealed| - |sealed| % CHUNK_SIZE;
    if |sealed| >= CHUNK_SIZE {
      PanicIff(c, key, sealed[CHUNK_SIZE..]);
      LaterRemainder(|sealed|);
      FullChunkFirst(c, key, sealed, full);
    } else if |sealed| >= NONCE_SIZE {
      LastChunk(c, key, sealed);
    } else {
      assert sealed[..full] == [];
    }
  }

  /** Every ciphertext shorter than a nonce runs into the slice at once. */
  lemma ShortPanics(c: Cipher, key: Key, sealed: Bytes)
    requires 0 < |sealed| < NONCE_SIZE
    ensures c.Opening(key, sealed) == Panic([])
  {
  }

  /** The last chunk of a ciphertext that opens has room for a nonce and a box. */
  lemma {:induction false} OpenedLength(c: Cipher, key: Key, sealed: Bytes)
    requires c.Lawful() && c.Opening(key, sealed).Opened?
    ensures |sealed| % CHUNK_SIZE == 0 || |sealed| % CHUNK_SIZE >= OVERHEAD_SIZE
    decreases |sealed|
  {
    if |sealed| >= CHUNK_SIZE {
      OpenedLength(c, key, sealed[CHUNK_SIZE..]);
      assert |sealed| % CHUNK_SIZE == (|sealed| - CHUNK_SIZE) % CHUNK_SIZE;
    } else if |sealed| >= NONCE_SIZE {
      assert |sealed| % CHUNK_SIZE == |sealed|;
      LastChunk(c, key, sealed);
    }
  }

  lemma LastChunk(c: Cipher, key: Key, sealed: Bytes)
    requires c.Lawful() && NONCE_SIZE <= |sealed| < CHUNK_SIZE
    ensures !c.Opening(key, sealed).Panic?
    ensures c.Opening(key, sealed).Opened? ==> |sealed| >= OVERHEAD_SIZE
  {
    var nonce, body := sealed[..NONCE_SIZE], sealed[NONCE_SIZE..|sealed|];
    var piece := c.unbox(key, nonce, body);
    assert sealed[|sealed|..] == [];
    assert c.UnboxLaw(key, nonce, body);
    if piece.Some? {
      assert c.BoxLaw(key, nonce, piece.value);
      assert |body| == |piece.value| + 16;
    }
  }

  // ---- Reads ------------------------------------------------------------------------------------

  /** How many bytes a read of up to `size` bytes returns. */
  function ReadSize(left: nat, limits: seq<nat>, size: nat): nat {
    var most := if left < size then left else size;
    if limits != [] && limits[0] < most then limits[0] else most
  }

  /** What the reads return up to the first empty one; the `k`-th returns at most `limits[k]` bytes, and as much
      as asked for once the limits are used up. */
  function Reads(data: Bytes, limits: seq<nat>, size: nat): seq<Bytes> {
    var n := ReadSize(|data|, limits, size);
    if n == 0 then [] else [data[..n]] + Reads(data[n..], Later(limits), size)
  }

  lemma {:induction false} FlatReads(data: Bytes, limits: seq<nat>, size: nat)
    ensures Flat(Reads(data, limits, size)) <= data
    ensures size > 0 && 0 !in limits ==> Flat(Reads(data, limits, size)) == data
    decreases |data|
  {
    var n := ReadSize(|data|, limits, size);
    if n > 0 {
      FlatReads(data[n..], Later(limits), size);
      assert data == data[..n] + data[n..];
      assert 0 !in limits ==> 0 !in Later(limits);
    }
  }

  lemma {:induction false} FullReads(text: Bytes)
    ensures FullButLast(Reads(text, [], PIECE_SIZE)) && Flat(Reads(text, [], PIECE_SIZE)) == text
    decreases |text|
  {
    FlatReads(text, [], PIECE_SIZE);
    if |text| >= PIECE_SIZE {
      FullReads(text[PIECE_SIZE..]);
    }
  }

  /** `n` nonces from `base` on. */
  function NoncesFrom(base: Bytes, n: nat): seq<Bytes>
    decreases n
  {
    if n == 0 then [] else [base] + NoncesFrom(NextNonce(base), n - 1)
  }

  lemma {:induction false} NoncesSized(base: Bytes, n: nat)
    requires |base| == NONCE_SIZE
    ensures |NoncesFrom(base, n)| == n && forall x | x in NoncesFrom(base, n) :: |x| == NONCE_SIZE
    decreases n
  {
    if n > 0 {
      NoncesSized(NextNonce(base), n - 1);
    }
  }

  /** What `Seal` writes when its reads return `pieces`. */
  function SealedPieces(c: Cipher, key: Key, base: Bytes, pieces: seq<Bytes>): Bytes
    decreases |pieces|
  {
    if pieces == [] then []
    else c.SealChunk(key, base, pieces[0]) + SealedPieces(c, key, NextNonce(base), pieces[1..])
  }

  lemma {:induction false} SealedPiecesAreChunks(c: Cipher, key: Key, base: Bytes, pieces: seq<Bytes>)
    requires |base| == NONCE_SIZE
    ensures |NoncesFrom(base, |pieces|)| == |pieces|
    ensures SealedPieces(c, key, base, pieces) == c.Chunks(key, NoncesFrom(base, |pieces|), pieces)
    decreases |pieces|
  {
    NoncesSized(base, |pieces|);
    if pieces != [] {
      SealedPiecesAreChunks(c, key, NextNonce(base), pieces[1..]);
    }
  }

  /** With full reads, `Seal` writes the sealed file. */
  lemma {:induction false} SealedByFullReads(c: Cipher, key: Key, base: Bytes, text: Bytes)
    ensures SealedPieces(c, key, base, Reads(text, [], PIECE_SIZE)) == c.Sealed(key, base, text)
    decreases |text|
  {
    if text != [] {
      var n := if |text| < PIECE_SIZE then |text| else PIECE_SIZE;
      SealedByFullReads(c, key, NextNonce(base), text[n..]);
    }
  }

  /** With full reads and no faults, `Open` does what is specified for any ciphertext. */
  lemma {:induction false} OpeningByFullReads(c: Cipher, key: Key, sealed: Bytes, faults: seq<bool>)
    requires true !in faults
    ensures c.OpeningReads(key, Reads(sealed, [], CHUNK_SIZE), faults) == c.Opening(key, sealed)
    decreases |sealed|
  {
    if sealed != [] {
      var n := if |sealed| < CHUNK_SIZE then |sealed| else CHUNK_SIZE;
      OpeningByFullReads(c, key, sealed[n..], Later(faults));
      if n >= NONCE_SIZE {
        assert sealed[..n][..NONCE_SIZE] == sealed[..NONCE_SIZE] && sealed[..n][NONCE_SIZE..] == sealed[NONCE_SIZE..n];
      }
    }
  }

  /** Whatever is read, the file opens to it again if every read but the last was full. */
  lemma FullPiecesOpen(c: Cipher, key: Key, base: Bytes, pieces: seq<Bytes>)
    requires c.Lawful() && |base| == NONCE_SIZE && FullButLast(pieces)
    ensures c.Opening(key, SealedPieces(c, key, base, pieces)) == Opened(Flat(pieces))
  {
    SealedPiecesAreChunks(c, key, base, pieces);
    NoncesSized(base, |pieces|);
    MadeOpens(c, key, NoncesFrom(base, |pieces|), pieces);
  }

  lemma {:induction false} FullLength(pieces: seq<Bytes>)
    requires FullButLast(pieces) && pieces != []
    ensures PIECE_SIZE * (|pieces| - 1) <= |Flat(pieces)|
  {
    if |pieces| > 1 {
      FullLength(pieces[1..]);
      assert |pieces[0]| == PIECE_SIZE;
    }
  }

  /** Short reads that make more pieces than the text has room for lose it: the file never opens to it. */
  lemma ShortReadsLose(c: Cipher, key: Key, base: Bytes, pieces: seq<Bytes>)
    requires c.Lawful() && |base| == NONCE_SIZE && PIECE_SIZE * (|pieces| - 1) > |Flat(pieces)|
    ensures c.Opening(key, SealedPieces(c, key, base, pieces)) != Opened(Flat(pieces))
  {
    var sealed, text := SealedPieces(c, key, base, pieces), Flat(pieces);
    SealedPiecesAreChunks(c, key, base, pieces);
    NoncesSized(base, |pieces|);
    ChunksLength(c, key, NoncesFrom(base, |pieces|), pieces);
    if c.Opening(key, sealed) == Opened(text) {
      var nonces, made := OpensMade(c, key, sealed);
      ChunksLength(c, key, nonces, made);
      FullLength(made);
    }
  }

  // ---- Where opening stops ----------------------------------------------------------------------

  /** Once the first `k` chunks have opened, chunk `k` decides: a fault of its read, a chunk too short for a nonce or
      one that does not open stops there with what was written so far, and otherwise its text is written too. */
  lemma {:induction false} NextChunkDecides(c: Cipher, key: Key, chunks: seq<Bytes>, faults: seq<bool>, k: nat)
    requires k < |chunks| && c.OpeningReads(key, chunks[..k], faults).Opened?
    ensures var written, chunk := c.OpeningReads(key, chunks[..k], faults).text, chunks[k];
            var outcome := c.OpeningReads(key, chunks, faults);
            if k < |faults| && faults[k] then outcome == BadRead(written)
            else if |chunk| < NONCE_SIZE then outcome == Panic(written)
            else
              var piece := c.unbox(key, chunk[..NONCE_SIZE], chunk[NONCE_SIZE..]);
              if piece.None? then outcome == BadChunk(written)
              else c.OpeningReads(key, chunks[..k + 1], faults) == Opened(written + piece.value)
  {
    if k > 0 {
      assert chunks[..k][1..] == chunks[1..][..k - 1] && chunks[..k + 1][1..] == chunks[1..][..k];
      NextChunkDecides(c, key, chunks[1..], Later(faults), k - 1);
    } else {
      assert chunks[..1][1..] == [];
    }
  }

  /** An opening that fails has a chunk before which everything opened, to the text that was written. */
  lemma {:induction false} FailureHasPlace(c: Cipher, key: Key, chunks: seq<Bytes>, faults: seq<bool>) returns (k: nat)
    requires !c.OpeningReads(key, chunks, faults).Opened?
    ensures k < |chunks|
    ensures c.OpeningReads(key, chunks[..k], faults) == Opened(c.OpeningReads(key, chunks, faults).text)
  {
    if (faults != [] && faults[0]) || |chunks[0]| < NONCE_SIZE
       || c.unbox(key, chunks[0][..NONCE_SIZE], chunks[0][NONCE_SIZE..]).None? {
      return 0;
    }
    var later := FailureHasPlace(c, key, chunks[1..], Later(faults));
    k := later + 1;
    assert chunks[..k][1..] == chunks[1..][..later];
  }

  /** In a ciphertext that fails to open, the text that was written is what a number of full chunks opens to. */
  lemma {:induction false} FailureKeepsPrefix(c: Cipher, key: Key, sealed: Bytes) returns (k: nat)
    requires !c.Opening(key, sealed).Opened?
    ensures CHUNK_SIZE * k < |sealed|
    ensures c.Opening(key, sealed[..CHUNK_SIZE * k]) == Opened(c.Opening(key, sealed).text)
    decreases |sealed|
  {
    var n := if |sealed| < CHUNK_SIZE then |sealed| else CHUNK_SIZE;
    if n < NONCE_SIZE || c.unbox(key, sealed[..NONCE_SIZE], sealed[NONCE_SIZE..n]).None? {
      return 0;
    }
    var later := FailureKeepsPrefix(c, key, sealed[n..]);
    k := later + 1;
    PrefixOpens(c, key, sealed, CHUNK_SIZE * k);
  }

  lemma PrefixOpens(c: Cipher, key: Key, sealed: Bytes, full: nat)
    requires CHUNK_SIZE <= full <= |sealed| && c.unbox(key, sealed[..NONCE_SIZE], sealed[NONCE_SIZE..CHUNK_SIZE]).Some?
    ensures c.Opening(key, sealed[..full])
            == c.Opening(key, sealed[CHUNK_SIZE..][..full - CHUNK_SIZE]).Prepend(
                 c.unbox(key, sealed[..NONCE_SIZE], sealed[NONCE_SIZE..CHUNK_SIZE]).value)
  {
    var part := sealed[..full];
    assert part[CHUNK_SIZE..] == sealed[CHUNK_SIZE..][..full - CHUNK_SIZE];
    assert part[..NONCE_SIZE] == sealed[..NONCE_SIZE] && part[NONCE_SIZE..CHUNK_SIZE] == sealed[NONCE_SIZE..CHUNK_SIZE];
  }

  // ---- The loops --------------------------------------------------------------------------------

  /** A reader of `left`: each of its next reads returns no more than its limit, and may report an error too. */
  class Reader {
    var left: Bytes
    var limits: seq<nat>
    var faults: seq<bool>

    constructor (data: Bytes, limits: seq<nat>, faults: seq<bool>)
      ensures this.left == data && this.limits == limits && this.faults == faults
    {
      this.left, this.limits, this.faults := data, limits, faults;
    }

    method Read(size: nat) returns (chunk: Bytes, fault: bool)
      modifies this
      ensures var n := ReadSize(|old(left)|, old(limits), size);
              chunk == old(left)[..n] && left == old(left)[n..]
      ensures limits == Later(old(limits)) && faults == Later(old(faults))
      ensures fault == (old(faults) != [] && old(faults)[0])
    {
      var n := if |left| < size then |left| else size;
      if limits != [] && limits[0] < n {
        n := limits[0];
      }
      chunk, left := left[..n], left[n..];
      fault := faults != [] && faults[0];
      limits := if limits == [] then [] else limits[1..];
      faults := if faults == [] then [] else faults[1..];
    }
  }

  /** `random` is the first nonce, unless the random source fails. */
  method Seal(c: Cipher, key: Key, reader: Reader, random: Option<Bytes>) returns (sealed: Option<Bytes>)
    requires random.Some? ==> |random.value| == NONCE_SIZE
    modifies reader
    ensures random.None? ==> sealed.None? && reader.left == old(reader.left)
    ensures random.Some? ==>
              var pieces := Reads(old(reader.left), old(reader.limits), PIECE_SIZE);
              sealed == Some(SealedPieces(c, key, random.value, pieces))
    ensures random.Some? && old(reader.limits) == [] ==> sealed == Some(c.Sealed(key, random.value, old(reader.left)))
  {
    if random.None? {
      return None;
    }
    SealedByFullReads(c, key, random.value, reader.left);
    var buffer := SealPieces(c, key, reader, random.value);
    return Some(buffer);
  }

  /** The loop of `Seal`: one box for every read. Errors of the reader are ignored. */
  method SealPieces(c: Cipher, key: Key, reader: Reader, base: Bytes) returns (buffer: Bytes)
    requires |base| == NONCE_SIZE
    modifies reader
    ensures buffer == SealedPieces(c, key, base, Reads(old(reader.left), old(reader.limits), PIECE_SIZE))
  {
    buffer := [];
    var nonce := base;
    ghost var whole := SealedPieces(c, key, base, Reads(reader.left, reader.limits, PIECE_SIZE));
    while true
      invariant |nonce| == NONCE_SIZE
      invariant buffer + SealedPieces(c, key, nonce, Reads(reader.left, reader.limits, PIECE_SIZE)) == whole
      decreases |reader.left|
    {
      ghost var pieces := Reads(reader.left, reader.limits, PIECE_SIZE);
      var chunk, fault := reader.Read(PIECE_SIZE);
      if chunk == [] {
        return;
      }
      assert pieces == [chunk] + Reads(reader.left, reader.limits, PIECE_SIZE);
      var enc := c.box(key, nonce, chunk);
      enc := nonce + enc;
      nonce := UpdateNonce(nonce);
      buffer := buffer + enc;
    }
  }

  /** Decrypts until the end of the input or the first error. */
  method Open(c: Cipher, key: Key, reader: Reader) returns (outcome: Outcome)
    modifies reader
    ensures outcome == c.OpeningReads(key, Reads(old(reader.left), old(reader.limits), CHUNK_SIZE), old(reader.faults))
    ensures old(reader.limits) == [] && true !in old(reader.faults) ==> outcome == c.Opening(key, old(reader.left))
  {
    if true !in reader.faults {
      OpeningByFullReads(c, key, reader.left, reader.faults);
    }
    outcome := OpenChunks(c, key, reader);
  }

  /** The loop of `Open`, which writes decrypted chunks to `out`. */
  method OpenChunks(c: Cipher, key: Key, reader: Reader) returns (outcome: Outcome)
    modifies reader
    ensures outcome == c.OpeningReads(key, Reads(old(reader.left), old(reader.limits), CHUNK_SIZE), old(reader.faults))
  {
    var out: Bytes := [];
    ghost var whole := c.OpeningReads(key, Reads(reader.left, reader.limits, CHUNK_SIZE), reader.faults);
    while true
      invariant whole == c.OpeningReads(key, Reads(reader.left, reader.limits, CHUNK_SIZE), reader.faults).Prepend(out)
      decreases |reader.left|
    {
      ghost var chunks := Reads(reader.left, reader.limits, CHUNK_SIZE);
      var chunk, fault := reader.Read(CHUNK_SIZE);
      if chunk == [] {
        return Opened(out);
      }
      ghost var later := Reads(reader.left, reader.limits, CHUNK_SIZE);
      assert chunks == [chunk] + later;
      if fault {
        return BadRead(out);
      }
      if |chunk| < NONCE_SIZE {
        return Panic(out);
      }
      var nonce := chunk[..NONCE_SIZE];
      var dec := c.unbox(key, nonce, chunk[NONCE_SIZE..]);
      if dec.None? {
        return BadChunk(out);
      }
      PrependTwice(c.OpeningReads(key, later, reader.faults), dec.value, out);
      out := out + dec.value;
    }
  }

  lemma PrependTwice(o: Outcome, near: Bytes, far: Bytes)
    ensures o.Prepend(near).Prepend(far) == o.Prepend(far + near)
  {
    assert far + (near + o.text) == far + near + o.text;
  }

  // ---- A cipher with the laws -------------------------------------------------------------------

  const TAG: Bytes := [0, 0, 0, 0, 0, 0, 0, 0, 0, 0, 0, 0, 0, 0, 0, 0]

  /** The laws can be met: a cipher that puts 16 zero bytes before the text has them. */
  lemma SomeLawfulCipher() returns (c: Cipher)
    ensures c.Lawful()
  {
    c := Cipher((k: Key, n: Bytes, m: Bytes) => TAG + m,
                (k: Key, n: Bytes, b: Bytes) => if TAG <= b then Some(b[16..]) else None);
    forall k: Key, n: Bytes, m: Bytes ensures c.BoxLaw(k, n, m) {
      assert (TAG + m)[16..] == m;
    }
    forall k: Key, n: Bytes, b: Bytes ensures c.UnboxLaw(k, n, b) {
      assert TAG <= b ==> b == TAG + b[16..];
    }
  }
}
