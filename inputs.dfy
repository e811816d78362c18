/**
 * The external-input encoding of the Grapevine step circuit: a private
 * input record (a phrase, two username slots, two auth-secret slots and a
 * chaff flag) becomes the ten field elements the circuit reads.
 */
module Inputs {
  import opened Wrappers
  import opened BigEndian
  import opened Utils
  import opened Field

  /** A Rust `String`, as the raw bytes its length counts. */
  type Bytes = seq<Byte>

  /** A two-element array of optional values: slot 0 (`prior`) and slot 1 (`current`). */
  datatype Slots<T> = Slots(prior: Option<T>, current: Option<T>)

  /** One step's private input, before encoding (`CircomPrivateInput`). */
  datatype CircomPrivateInput = CircomPrivateInput(
    phrase: Option<Bytes>,
    usernames: Slots<Bytes>,
    authSecrets: Slots<int>,
    chaff: bool)

  /** The two recoverable errors of the serializers. */
  datatype Error =
    | PhraseTooLong    // "Phrase must be <= 180 characters"
    | UsernameTooLong  // "Username must be <= 30 characters"

  // ---------------------------------------------------------------------
  // The record
  // ---------------------------------------------------------------------

  /** An input with no data at all, marked as chaff or not. */
  function Empty(chaff: bool): (r: CircomPrivateInput)
    ensures r.phrase == None
    ensures r.usernames == Slots(None, None) && r.authSecrets == Slots(None, None)
    ensures r.chaff == chaff
  {
    CircomPrivateInput(None, Slots(None, None), Slots(None, None), chaff)
  }

  /**
   * Every slot is empty and the record is not marked as chaff: the only
   * such record is `Empty(false)`.
   */
  predicate Uninitialized(inp: CircomPrivateInput): (b: bool)
    ensures b <==> inp == Empty(false)
  {
    && inp.phrase.None?
    && inp.usernames.prior.None? && inp.usernames.current.None?
    && inp.authSecrets.prior.None? && inp.authSecrets.current.None?
    && !inp.chaff
  }

  /** An empty record is uninitialized exactly when it is not chaff. */
  lemma EmptyUninitialized(chaff: bool)
    ensures Uninitialized(Empty(chaff)) <==> !chaff
  {
  }

  /** The initial IVC state (`get_z0`): four field zeros. */
  function Z0(): (z: seq<nat>)
    ensures |z| == 4
    ensures forall k :: 0 <= k < |z| ==> z[k] == 0
  {
    seq(4, _ => 0)
  }

  // ---------------------------------------------------------------------
  // Random field elements
  // ---------------------------------------------------------------------

  /**
   * The exclusive upper bound of `random_f_bigint`: the modulus read back
   * from its 32-byte big-endian form.
   */
  function SampleUpperBound(): (b: nat)
    ensures b == P
  {
    PayloadBelowModulus();
    FromBytesToBytes(P, 32);
    FromBytes(ToBytes(P, 32))
  }

  /** A value `random_f_bigint` may return: in [0, SampleUpperBound()), which is [0, P). */
  predicate IsSample(v: int)
  {
    0 <= v < P
  }

  /** The sample range is exactly the range `random_f_bigint` draws from. */
  lemma IsSampleBound(v: int)
    ensures IsSample(v) <==> 0 <= v < SampleUpperBound()
  {
  }

  /** Every value of a random supply is a sample. */
  predicate AllSamples(rng: seq<int>)
  {
    forall k :: 0 <= k < |rng| ==> IsSample(rng[k])
  }

  // ---------------------------------------------------------------------
  // Byte-level helpers
  // ---------------------------------------------------------------------

  function Min(a: nat, b: nat): nat
  {
    if a <= b then a else b
  }

  /** `s` followed by zero bytes up to length `n`. */
  function PadRight(s: Bytes, n: nat): (t: Bytes)
    requires |s| <= n
    ensures |t| == n && t[..|s|] == s
    ensures forall k :: |s| <= k < n ==> t[k] == 0
  {
    s + Zeros(n - |s|)
  }

  /**
   * `copy_from_slice` into `dst[lo..hi]`: the slice bounds and the equal
   * lengths are what Rust checks before copying.
   */
  method CopyFromSlice(dst: array<Byte>, lo: nat, hi: nat, src: Bytes)
    requires lo <= hi <= dst.Length && hi - lo == |src|
    modifies dst
    ensures dst[..] == old(dst[..lo]) + src + old(dst[hi..])
  {
    for k := 0 to |src|
      invariant dst[..lo] == old(dst[..lo])
      invariant dst[lo..lo + k] == src[..k]
      invariant forall j :: lo + k <= j < dst.Length ==> dst[j] == old(dst[j])
    {
      dst[lo + k] := src[k];
    }
    assert dst[..] == dst[..lo] + dst[lo..hi] + dst[hi..];
  }

  // ---------------------------------------------------------------------
  // Phrases
  // ---------------------------------------------------------------------

  /** Bytes [31i, 31i + 31) of the phrase, cut off at its end. */
  function Segment(phrase: Bytes, i: nat): (seg: Bytes)
    ensures |seg| <= 31
  {
    phrase[Min(31 * i, |phrase|)..Min(31 * i + 31, |phrase|)]
  }

  /** The 32-byte buffer of chunk `i`: a zero byte, then the segment, then zero padding. */
  function ChunkBytes(phrase: Bytes, i: nat): (buf: Bytes)
    ensures |buf| == 32
  {
    PadRight([0] + Segment(phrase, i), 32)
  }

  /** Chunk `i` as a big-endian integer. */
  function ChunkValue(phrase: Bytes, i: nat): nat
  {
    FromBytes(ChunkBytes(phrase, i))
  }

  /** What `serialize_phrase` returns. */
  function EncodePhrase(phrase: Bytes): (r: Result<seq<nat>, Error>)
    ensures r.Ok? <==> |phrase| <= MAX_SECRET_LENGTH
    ensures r.Err? ==> r.error == PhraseTooLong
    ensures r.Ok? ==> |r.value| == SECRET_FIELD_LENGTH
  {
    if |phrase| > MAX_SECRET_LENGTH then Err(PhraseTooLong)
    else Ok(seq(SECRET_FIELD_LENGTH, i requires 0 <= i => ChunkValue(phrase, i)))
  }

  /** A zeroed buffer with the segment copied in at offset 1 is the chunk's buffer. */
  lemma CopiedChunk(phrase: Bytes, i: nat)
    ensures var seg := Segment(phrase, i);
      Zeros(32)[..1] + seg + Zeros(32)[1 + |seg|..] == ChunkBytes(phrase, i)
  {
  }

  /**
   * One pass of the `serialize_phrase` loop: a fresh zeroed 32-byte buffer
   * into which the phrase bytes from offset 31i are copied at offset 1
   * (none, the rest of the phrase, or 31 of them), read as a big-endian
   * integer.
   */
  method SerializeChunk(phrase: Bytes, i: nat) returns (v: nat)
    ensures v == ChunkValue(phrase, i)
  {
    var start := i * 31;
    var end := (i + 1) * 31;
    var chunk := new Byte[32](_ => 0);
    ghost var zero := chunk[..];
    if start >= |phrase| {
    } else if end > |phrase| {
      CopyFromSlice(chunk, 1, |phrase| - start + 1, phrase[start..]);
    } else {
      CopyFromSlice(chunk, 1, 32, phrase[start..end]);
    }
    assert chunk[..] == ChunkBytes(phrase, i) by {
      var seg := Segment(phrase, i);
      assert zero == Zeros(32);
      assert chunk[..] == zero[..1] + seg + zero[1 + |seg|..];
      CopiedChunk(phrase, i);
    }
    v := FromBytes(chunk[..]);
  }

  /**
   * `serialize_phrase`: check the length, then fill the six chunks in
   * order.
   */
  method SerializePhrase(phrase: Bytes) returns (r: Result<seq<nat>, Error>)
    ensures r == EncodePhrase(phrase)
  {
    if |phrase| > MAX_SECRET_LENGTH {
      return Err(PhraseTooLong);
    }
    var chunks := new nat[SECRET_FIELD_LENGTH];
    for i := 0 to SECRET_FIELD_LENGTH
      invariant forall k :: 0 <= k < i ==> chunks[k] == ChunkValue(phrase, k)
    {
      chunks[i] := SerializeChunk(phrase, i);
    }
    assert chunks[..] == EncodePhrase(phrase).value;
    return Ok(chunks[..]);
  }

  /** Bytes 1..32 of each value's 32-byte big-endian form, concatenated in order. */
  function Payloads(chunks: seq<nat>): (s: Bytes)
    ensures |s| == 31 * |chunks|
  {
    if chunks == [] then [] else ToBytes(chunks[0], 32)[1..] + Payloads(chunks[1..])
  }

  /** The first `len` payload bytes of the chunks: the inverse of `EncodePhrase`. */
  function DecodePhrase(chunks: seq<nat>, len: nat): Bytes
    requires len <= 31 * |chunks|
  {
    Payloads(chunks)[..len]
  }

  lemma {:induction false} PayloadsAt(chunks: seq<nat>, i: nat, o: nat)
    requires i < |chunks| && o < 31
    ensures Payloads(chunks)[31 * i + o] == ToBytes(chunks[i], 32)[1 + o]
  {
    if i > 0 {
      PayloadsAt(chunks[1..], i - 1, o);
    }
  }

  /** Byte `1 + o` of chunk `i` is phrase byte `31i + o`, or zero past the phrase's end. */
  lemma ChunkBytesAt(phrase: Bytes, i: nat, o: nat)
    requires o < 31
    ensures ChunkBytes(phrase, i)[0] == 0
    ensures ChunkBytes(phrase, i)[1 + o] == if 31 * i + o < |phrase| then phrase[31 * i + o] else 0
  {
    var seg := Segment(phrase, i);
    var buf := ChunkBytes(phrase, i);
    assert buf[..1 + |seg|] == [0] + seg;
    if 31 * i + o < |phrase| {
      assert buf[1 + o] == ([0] + seg)[1 + o];
    }
  }

  /**
   * Chunk placement: the 32-byte big-endian form of chunk `i` is a zero
   * byte followed by phrase bytes [31i, 31i + 31), zero past the phrase's
   * end; in particular a chunk starting at or past the end is zero.
   */
  lemma ChunkPlacement(phrase: Bytes, i: nat)
    requires |phrase| <= MAX_SECRET_LENGTH && i < SECRET_FIELD_LENGTH
    ensures ToBytes(EncodePhrase(phrase).value[i], 32)[0] == 0
    ensures forall k :: 1 <= k < 32 ==>
      ToBytes(EncodePhrase(phrase).value[i], 32)[k] ==
        if 31 * i + k - 1 < |phrase| then phrase[31 * i + k - 1] else 0
    ensures 31 * i >= |phrase| ==> EncodePhrase(phrase).value[i] == 0
  {
    ToBytesFromBytes(ChunkBytes(phrase, i));
    ChunkBytesAt(phrase, i, 0);
    forall k | 1 <= k < 32
      ensures ToBytes(EncodePhrase(phrase).value[i], 32)[k] ==
        if 31 * i + k - 1 < |phrase| then phrase[31 * i + k - 1] else 0
    {
      ChunkBytesAt(phrase, i, k - 1);
    }
    if 31 * i >= |phrase| {
      assert ChunkBytes(phrase, i) == Zeros(32);
      FromBytesZeros(32);
    }
  }

  /** Every chunk is below 2^248, hence below P. */
  lemma ChunkBound(phrase: Bytes, i: nat)
    ensures ChunkValue(phrase, i) < PAYLOAD_BOUND < P
  {
    var seg := Segment(phrase, i);
    assert ChunkBytes(phrase, i) == [0] + PadRight(seg, 31);
    FromBytesLeadingZero(PadRight(seg, 31));
    PayloadBelowModulus();
  }

  /** No modular wrap-around: every value `EncodePhrase` returns is below 2^248 < P. */
  lemma PhraseBound(phrase: Bytes)
    requires |phrase| <= MAX_SECRET_LENGTH
    ensures forall k :: 0 <= k < SECRET_FIELD_LENGTH ==> EncodePhrase(phrase).value[k] < PAYLOAD_BOUND < P
  {
    forall k | 0 <= k < SECRET_FIELD_LENGTH
      ensures EncodePhrase(phrase).value[k] < PAYLOAD_BOUND < P
    {
      ChunkBound(phrase, k);
    }
  }

  /** The 186 payload bytes of an encoded phrase are the phrase followed by zeros. */
  lemma PhrasePayloads(phrase: Bytes)
    requires |phrase| <= MAX_SECRET_LENGTH
    ensures Payloads(EncodePhrase(phrase).value) == PadRight(phrase, 31 * SECRET_FIELD_LENGTH)
  {
    var chunks := EncodePhrase(phrase).value;
    var expected := PadRight(phrase, 31 * SECRET_FIELD_LENGTH);
    forall j | 0 <= j < 31 * SECRET_FIELD_LENGTH
      ensures Payloads(chunks)[j] == expected[j]
    {
      var i, o := j / 31, j % 31;
      assert j == 31 * i + o;
      PayloadsAt(chunks, i, o);
      ChunkPlacement(phrase, i);
      assert ToBytes(chunks[i], 32)[1 + o] == if j < |phrase| then phrase[j] else 0;
      if j < |phrase| {
        assert expected[j] == expected[..|phrase|][j];
      }
    }
  }

  /** Round trip: the phrase is recovered from its chunks and its length. */
  lemma PhraseRoundTrip(phrase: Bytes)
    requires |phrase| <= MAX_SECRET_LENGTH
    ensures DecodePhrase(EncodePhrase(phrase).value, |phrase|) == phrase
  {
    PhrasePayloads(phrase);
  }

  // ---------------------------------------------------------------------
  // Usernames
  // ---------------------------------------------------------------------

  /** What `serialize_username` returns. */
  function EncodeUsername(username: Bytes): (r: Result<nat, Error>)
    ensures r.Ok? <==> |username| <= MAX_USERNAME_LENGTH
    ensures r.Err? ==> r.error == UsernameTooLong
  {
    if |username| > MAX_USERNAME_LENGTH then Err(UsernameTooLong)
    else Ok(FromBytes(PadRight([0] + username, 32)))
  }

  /**
   * `serialize_username`: check the length, then copy the bytes into a
   * zeroed 32-byte buffer at offset 1 and read it as a big-endian integer.
   */
  method SerializeUsername(username: Bytes) returns (r: Result<nat, Error>)
    ensures r == EncodeUsername(username)
  {
    if |username| > MAX_USERNAME_LENGTH {
      return Err(UsernameTooLong);
    }
    var bytes := new Byte[32](_ => 0);
    CopyFromSlice(bytes, 1, |username| + 1, username);
    assert bytes[..] == PadRight([0] + username, 32);
    return Ok(FromBytes(bytes[..]));
  }

  /** The `len` username bytes held at offset 1 of the value's 32-byte form. */
  function DecodeUsername(v: nat, len: nat): Bytes
    requires len <= 31
  {
    ToBytes(v, 32)[1..1 + len]
  }

  /**
   * No modular wrap-around: an encoded username is below 2^248, hence below
   * P; it is a multiple of 256, since the last buffer byte is always zero;
   * and the empty name encodes to zero.
   */
  lemma UsernameBound(username: Bytes)
    requires |username| <= MAX_USERNAME_LENGTH
    ensures EncodeUsername(username).value < PAYLOAD_BOUND < P
    ensures EncodeUsername(username).value % 256 == 0
    ensures username == [] ==> EncodeUsername(username).value == 0
  {
    var buf := PadRight([0] + username, 32);
    var n := FromBytes(buf);
    assert EncodeUsername(username).value == n;
    assert n < PAYLOAD_BOUND < P by {
      var tail := PadRight(username, 31);
      assert buf == [0] + tail;
      FromBytesLeadingZero(tail);
      PayloadBelowModulus();
    }
    assert n % 256 == 0 by {
      var high := FromBytes(buf[..31]);
      assert buf[31] == 0;
      assert n == high * 256;
    }
    if username == [] {
      assert buf == Zeros(32);
      FromBytesZeros(32);
    }
  }

  /** Round trip: the username is recovered from its value and its length. */
  lemma UsernameRoundTrip(username: Bytes)
    requires |username| <= MAX_USERNAME_LENGTH
    ensures DecodeUsername(EncodeUsername(username).value, |username|) == username
  {
    var buf := PadRight([0] + username, 32);
    ToBytesFromBytes(buf);
    assert buf[1..1 + |username|] == username;
  }

  // ---------------------------------------------------------------------
  // Assembling the external inputs
  // ---------------------------------------------------------------------

  /** The usernames are serialized without a panic: no missing slot 1 after slot 0, no name over 30 bytes. */
  predicate UsernamesAccepted(u: Slots<Bytes>)
  {
    match u.prior
    case Some(u0) =>
      && |u0| <= MAX_USERNAME_LENGTH
      && u.current.Some? && |u.current.value| <= MAX_USERNAME_LENGTH
    case None =>
      u.current.Some? ==> |u.current.value| <= MAX_USERNAME_LENGTH
  }

  /** The auth secrets are unwrapped without a panic: slot 0 present means slot 1 present. */
  predicate SecretsAccepted(a: Slots<int>)
  {
    a.prior.Some? ==> a.current.Some?
  }

  /**
   * `prepare_external_inputs` runs without a panic on this record: every
   * serializer result it unwraps is `Ok`, and slot 1 is present wherever
   * slot 0 is.
   */
  predicate Accepted(inp: CircomPrivateInput): (b: bool)
    ensures b <==>
      && (inp.phrase.Some? ==> EncodePhrase(inp.phrase.value).Ok?)
      && (inp.usernames.prior.Some? ==> inp.usernames.current.Some?)
      && (inp.usernames.prior.Some? ==> EncodeUsername(inp.usernames.prior.value).Ok?)
      && (inp.usernames.current.Some? ==> EncodeUsername(inp.usernames.current.value).Ok?)
      && (inp.authSecrets.prior.Some? ==> inp.authSecrets.current.Some?)
  {
    && (inp.phrase.Some? ==> |inp.phrase.value| <= MAX_SECRET_LENGTH)
    && UsernamesAccepted(inp.usernames)
    && SecretsAccepted(inp.authSecrets)
  }

  /** How many values `random_f_bigint` gives the phrase, username and secret segments. */
  function PhraseDraws(phrase: Option<Bytes>): nat
  {
    if phrase.None? then SECRET_FIELD_LENGTH else 0
  }

  function SlotDraws<T>(s: Slots<T>): nat
  {
    if s.prior.None? && s.current.None? then 2 else 0
  }

  function Draws(inp: CircomPrivateInput): nat
  {
    PhraseDraws(inp.phrase) + SlotDraws(inp.usernames) + SlotDraws(inp.authSecrets)
  }

  /** The phrase segment and the random values left over. */
  function PhraseSegment(phrase: Option<Bytes>, rng: seq<int>): (r: (seq<int>, seq<int>))
    requires phrase.Some? ==> |phrase.value| <= MAX_SECRET_LENGTH
    requires |rng| >= PhraseDraws(phrase)
    ensures |r.0| == SECRET_FIELD_LENGTH && r.1 == rng[PhraseDraws(phrase)..]
  {
    match phrase
    case Some(p) => (EncodePhrase(p).value, rng)
    case None => (rng[..SECRET_FIELD_LENGTH], rng[SECRET_FIELD_LENGTH..])
  }

  /** The username segment and the random values left over. */
  function UsernameSegment(u: Slots<Bytes>, rng: seq<int>): (r: (seq<int>, seq<int>))
    requires UsernamesAccepted(u)
    requires |rng| >= SlotDraws(u)
    ensures |r.0| == 2 && r.1 == rng[SlotDraws(u)..]
  {
    match u.prior
    case Some(u0) => ([EncodeUsername(u0).value, EncodeUsername(u.current.value).value], rng)
    case None =>
      match u.current
      case Some(u1) => ([0, EncodeUsername(u1).value], rng)
      case None => (rng[..2], rng[2..])
  }

  /** The auth-secret segment and the random values left over. */
  function SecretSegment(a: Slots<int>, rng: seq<int>): (r: (seq<int>, seq<int>))
    requires SecretsAccepted(a)
    requires |rng| >= SlotDraws(a)
    ensures |r.0| == 2 && r.1 == rng[SlotDraws(a)..]
  {
    match a.prior
    case Some(a0) => ([a0, a.current.value], rng)
    case None =>
      match a.current
      case Some(a1) => ([0, a1], rng)
      case None => (rng[..2], rng[2..])
  }

  /** Every value reduced into the field. */
  function ToFieldElements(v: seq<int>): (r: seq<nat>)
    ensures |r| == |v|
    ensures forall k :: 0 <= k < |v| ==> r[k] == FromBigInt(v[k])
  {
    seq(|v|, k requires 0 <= k < |v| => FromBigInt(v[k]))
  }

  /** Values already in [0, P) come out of the field reduction unchanged. */
  lemma ToFieldElementsCanonical(v: seq<int>)
    requires forall k :: 0 <= k < |v| ==> 0 <= v[k] < P
    ensures ToFieldElements(v) == v
  {
    forall k | 0 <= k < |v|
      ensures ToFieldElements(v)[k] == v[k]
    {
      FromBigIntCanonical(v[k]);
    }
  }

  /** The reduction works element by element, so it commutes with slicing. */
  lemma ToFieldElementsSlice(v: seq<int>, i: nat, j: nat)
    requires i <= j <= |v|
    ensures ToFieldElements(v)[i..j] == ToFieldElements(v[i..j])
  {
  }

  /** The unreduced vector: phrase ++ usernames ++ auth secrets, drawing random values in that order. */
  function Concatenated(inp: CircomPrivateInput, rng: seq<int>): (v: seq<int>)
    requires Accepted(inp)
    requires |rng| >= Draws(inp)
    ensures |v| == SECRET_FIELD_LENGTH + 4
    ensures v[..6] == PhraseSegment(inp.phrase, rng).0
    ensures v[6..8] == UsernameSegment(inp.usernames, rng[PhraseDraws(inp.phrase)..]).0
    ensures v[8..10] ==
      SecretSegment(inp.authSecrets, rng[PhraseDraws(inp.phrase) + SlotDraws(inp.usernames)..]).0
  {
    var (phrase, rest1) := PhraseSegment(inp.phrase, rng);
    var (usernames, rest2) := UsernameSegment(inp.usernames, rest1);
    var (authSecrets, _) := SecretSegment(inp.authSecrets, rest2);
    assert rest2 == rng[PhraseDraws(inp.phrase) + SlotDraws(inp.usernames)..];
    phrase + usernames + authSecrets
  }

  /**
   * `prepare_external_inputs`: phrase (6) ++ usernames (2) ++ auth secrets
   * (2), each reduced into the field; `rng` supplies, in order, the values
   * the source draws from `random_f_bigint`.
   */
  function PrepareExternalInputs(inp: CircomPrivateInput, rng: seq<int>): (r: seq<nat>)
    requires Accepted(inp)
    requires |rng| >= Draws(inp)
    ensures |r| == SECRET_FIELD_LENGTH + 4
    ensures forall k :: 0 <= k < |r| ==> r[k] < P
  {
    ToFieldElements(Concatenated(inp, rng))
  }

  /** A phrase segment, encoded or random, is already reduced. */
  lemma PhraseSegmentCanonical(phrase: Option<Bytes>, rng: seq<int>)
    requires phrase.Some? ==> |phrase.value| <= MAX_SECRET_LENGTH
    requires |rng| >= PhraseDraws(phrase) && AllSamples(rng)
    ensures ToFieldElements(PhraseSegment(phrase, rng).0) == PhraseSegment(phrase, rng).0
  {
    var seg := PhraseSegment(phrase, rng).0;
    match phrase
    case Some(p) =>
      assert forall k :: 0 <= k < 6 ==> seg[k] < P by { PhraseBound(p); }
      ToFieldElementsCanonical(seg);
    case None =>
      ToFieldElementsCanonical(seg);
  }

  /** An encoded username segment is already reduced. */
  lemma UsernameSegmentCanonical(u: Slots<Bytes>, rng: seq<int>)
    requires UsernamesAccepted(u) && |rng| >= SlotDraws(u) && AllSamples(rng)
    ensures ToFieldElements(UsernameSegment(u, rng).0) == UsernameSegment(u, rng).0
  {
    var seg := UsernameSegment(u, rng).0;
    forall k | 0 <= k < 2
      ensures 0 <= seg[k] < P
    {
      match u.prior
      case Some(u0) =>
        UsernameBound(u0);
        UsernameBound(u.current.value);
      case None =>
        if u.current.Some? {
          UsernameBound(u.current.value);
        }
    }
    ToFieldElementsCanonical(seg);
  }

  /** The reduced auth-secret segment, case by case. */
  lemma SecretSegmentReduced(a: Slots<int>, rng: seq<int>)
    requires SecretsAccepted(a) && |rng| >= SlotDraws(a) && AllSamples(rng)
    ensures ToFieldElements(SecretSegment(a, rng).0) ==
      match a.prior
      case Some(a0) => [FromBigInt(a0), FromBigInt(a.current.value)]
      case None =>
        match a.current
        case Some(a1) => [0, FromBigInt(a1)]
        case None => [rng[0], rng[1]]
  {
    var seg := SecretSegment(a, rng).0;
    match a.prior
    case Some(a0) =>
      assert seg == [a0, a.current.value];
    case None =>
      match a.current
      case Some(a1) =>
        assert seg == [0, a1];
        FromBigIntCanonical(0);
      case None =>
        assert seg == [rng[0], rng[1]];
        ToFieldElementsCanonical(seg);
  }

  /**
   * Elements 0..6: the encoded phrase when there is one, otherwise the
   * first six random values.
   */
  lemma PhraseSegmentOfInputs(inp: CircomPrivateInput, rng: seq<int>)
    requires Accepted(inp) && |rng| >= Draws(inp) && AllSamples(rng)
    ensures PrepareExternalInputs(inp, rng)[..6] ==
      match inp.phrase
      case Some(p) => EncodePhrase(p).value
      case None => rng[..6]
  {
    var v := Concatenated(inp, rng);
    PhraseSegmentCanonical(inp.phrase, rng);
    ToFieldElementsSlice(v, 0, 6);
  }

  /**
   * Elements 6..8, the three-way slot rule on usernames: both encoded when
   * slot 0 is present; zero and the encoded slot 1 when only slot 1 is;
   * the next two random values when neither is.
   */
  lemma UsernameSegmentOfInputs(inp: CircomPrivateInput, rng: seq<int>)
    requires Accepted(inp) && |rng| >= Draws(inp) && AllSamples(rng)
    ensures PrepareExternalInputs(inp, rng)[6..8] ==
      match inp.usernames.prior
      case Some(u0) =>
        [EncodeUsername(u0).value, EncodeUsername(inp.usernames.current.value).value]
      case None =>
        match inp.usernames.current
        case Some(u1) => [0, EncodeUsername(u1).value]
        case None =>
          var d := PhraseDraws(inp.phrase);
          [rng[d], rng[d + 1]]
  {
    var d := PhraseDraws(inp.phrase);
    var v := Concatenated(inp, rng);
    assert AllSamples(rng[d..]);
    UsernameSegmentCanonical(inp.usernames, rng[d..]);
    ToFieldElementsSlice(v, 6, 8);
  }

  /**
   * Elements 8..10, the same slot rule on auth secrets: both reduced when
   * slot 0 is present; zero and the reduced slot 1 when only slot 1 is;
   * the next two random values when neither is.
   */
  lemma SecretSegmentOfInputs(inp: CircomPrivateInput, rng: seq<int>)
    requires Accepted(inp) && |rng| >= Draws(inp) && AllSamples(rng)
    ensures PrepareExternalInputs(inp, rng)[8..10] ==
      match inp.authSecrets.prior
      case Some(a0) => [FromBigInt(a0), FromBigInt(inp.authSecrets.current.value)]
      case None =>
        match inp.authSecrets.current
        case Some(a1) => [0, FromBigInt(a1)]
        case None =>
          var d := PhraseDraws(inp.phrase) + SlotDraws(inp.usernames);
          [rng[d], rng[d + 1]]
  {
    var d := PhraseDraws(inp.phrase) + SlotDraws(inp.usernames);
    var v := Concatenated(inp, rng);
    assert AllSamples(rng[d..]);
    SecretSegmentReduced(inp.authSecrets, rng[d..]);
    ToFieldElementsSlice(v, 8, 10);
  }

  /** The phrase and every present username can be read back from the assembled inputs. */
  lemma InputsRecoverable(inp: CircomPrivateInput, rng: seq<int>)
    requires Accepted(inp) && |rng| >= Draws(inp) && AllSamples(rng)
    ensures inp.phrase.Some? ==>
      DecodePhrase(PrepareExternalInputs(inp, rng)[..6], |inp.phrase.value|) == inp.phrase.value
    ensures inp.usernames.prior.Some? ==>
      DecodeUsername(PrepareExternalInputs(inp, rng)[6], |inp.usernames.prior.value|) == inp.usernames.prior.value
    ensures inp.usernames.current.Some? ==>
      DecodeUsername(PrepareExternalInputs(inp, rng)[7], |inp.usernames.current.value|) == inp.usernames.current.value
  {
    var r := PrepareExternalInputs(inp, rng);
    PhraseSegmentOfInputs(inp, rng);
    UsernameSegmentOfInputs(inp, rng);
    if inp.phrase.Some? {
      PhraseRoundTrip(inp.phrase.value);
    }
    if inp.usernames.prior.Some? {
      assert r[6] == r[6..8][0];
      UsernameRoundTrip(inp.usernames.prior.value);
    }
    if inp.usernames.current.Some? {
      assert r[7] == r[6..8][1];
      UsernameRoundTrip(inp.usernames.current.value);
    }
  }

  /** The chaff flag is never read: only the slots decide the result. */
  lemma ChaffIgnored(inp: CircomPrivateInput, rng: seq<int>, chaff: bool)
    requires Accepted(inp) && |rng| >= Draws(inp)
    ensures PrepareExternalInputs(inp.(chaff := chaff), rng) == PrepareExternalInputs(inp, rng)
  {
  }

  /**
   * Chaff shape: an empty record, chaff or not, gives ten values, all of
   * them the random values in the order drawn.
   */
  lemma EmptyInputsAreRandom(chaff: bool, rng: seq<int>)
    requires |rng| >= 10 && AllSamples(rng)
    ensures Accepted(Empty(chaff)) && Draws(Empty(chaff)) == 10
    ensures PrepareExternalInputs(Empty(chaff), rng) == rng[..10]
  {
    var inp := Empty(chaff);
    var r := PrepareExternalInputs(inp, rng);
    PhraseSegmentOfInputs(inp, rng);
    UsernameSegmentOfInputs(inp, rng);
    SecretSegmentOfInputs(inp, rng);
    assert r == r[..6] + r[6..8] + r[8..10];
    assert rng[..10] == rng[..6] + rng[6..8] + rng[8..10];
  }
}
