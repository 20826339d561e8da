/**
 * Per-entry audio encryption (lib/encryption.ts): the raw AES-GCM key as a
 * lower-case hex string, the IV || ciphertext container, and the decoding of
 * both on playback. The AES-GCM primitive itself is a Web Crypto call; it is
 * a parameter here (`Aead`) together with the two properties the code relies on.
 */
module AudioCipher {
  import opened Wrappers
  import opened Text

  newtype byte = x: int | 0 <= x < 256

  /** `generateKey({ name: "AES-GCM", length: 256 })`: 32 raw bytes. */
  const KeyLength: nat := 32
  /** `getRandomValues(new Uint8Array(12))`: the 96-bit IV. */
  const IvLength: nat := 12
  /** Web Crypto's AES-GCM tag when no `tagLength` is given: 128 bits. */
  const TagLength: nat := 16

  // ---------------------------------------------------------------------------
  // The authenticated cipher, as a parameter
  // ---------------------------------------------------------------------------

  /** `crypto.subtle.encrypt` / `decrypt` for AES-GCM over raw key bytes; `open` yields None where Web Crypto throws. */
  datatype Aead = Aead(
    seal: (seq<byte>, seq<byte>, seq<byte>) -> seq<byte>,
    open: (seq<byte>, seq<byte>, seq<byte>) -> Option<seq<byte>>)

  /**
   * What the code assumes of AES-GCM with a 256-bit key and a 96-bit IV:
   * opening what was sealed under the same key and IV gives the plaintext
   * back, and sealing adds exactly the 16-byte tag.
   */
  ghost predicate Sound(aead: Aead)
  {
    forall key: seq<byte>, iv: seq<byte>, p: seq<byte> {:trigger aead.seal(key, iv, p)} ::
      |key| == KeyLength && |iv| == IvLength ==>
        |aead.seal(key, iv, p)| == |p| + TagLength &&
        aead.open(key, iv, aead.seal(key, iv, p)) == Some(p)
  }

  /** A (cryptographically worthless) cipher with the two properties, so `Sound` is no empty hypothesis. */
  function ZeroTagAead(): Aead
  {
    Aead(
      (key: seq<byte>, iv: seq<byte>, p: seq<byte>) => p + seq(TagLength, _ => 0 as byte),
      (key: seq<byte>, iv: seq<byte>, c: seq<byte>) =>
        if |c| >= TagLength then Some(c[..|c| - TagLength]) else None)
  }

  lemma ZeroTagAeadIsSound()
    ensures Sound(ZeroTagAead())
  {
    var a := ZeroTagAead();
    forall key: seq<byte>, iv: seq<byte>, p: seq<byte> | |key| == KeyLength && |iv| == IvLength
      ensures |a.seal(key, iv, p)| == |p| + TagLength && a.open(key, iv, a.seal(key, iv, p)) == Some(p)
    {
      var c := a.seal(key, iv, p);
      assert c[..|c| - TagLength] == p;
    }
  }

  // ---------------------------------------------------------------------------
  // Key string: Array.from(raw).map(b => b.toString(16).padStart(2, "0")).join("")
  // ---------------------------------------------------------------------------

  /** One key byte as two lower-case hex digits, high nibble first. */
  function ByteToHex(b: byte): (s: string)
    ensures |s| == 2 && IsLowerHex(s[0]) && IsLowerHex(s[1])
    ensures ReadDigits(s, 16) == b as int
  {
    var hi, lo := DigitChar(b as nat / 16), DigitChar(b as nat % 16);
    ReadTwoDigits(hi, lo, 16);
    [hi, lo]
  }

  /** `ByteToHex` is what `b.toString(16).padStart(2, "0")` writes. */
  lemma ByteToHexIsPaddedToString(b: byte)
    ensures ByteToHex(b) == PadStart(NatToString(b as nat, 16), 2, '0')
  {
    var n := b as nat;
    if n < 16 {
      assert NatToString(n, 16) == [DigitChar(n)];
      assert n / 16 == 0 && n % 16 == n;
    } else {
      assert n / 16 < 16;
      assert NatToString(n / 16, 16) == [DigitChar(n / 16)];
    }
  }

  /** The key string stored beside each entry. */
  function HexEncode(key: seq<byte>): (s: string)
    ensures |s| == 2 * |key|
    ensures forall i :: 0 <= i < |s| ==> IsLowerHex(s[i])
  {
    if key == [] then "" else ByteToHex(key[0]) + HexEncode(key[1..])
  }

  // ---------------------------------------------------------------------------
  // Key string back to bytes:
  // new Uint8Array(s.match(/.{1,2}/g)!.map(byte => Number.parseInt(byte, 16)))
  // ---------------------------------------------------------------------------

  /** The characters the regular-expression `.` does not match (no `s` flag). */
  predicate IsLineTerminator(c: char)
  {
    c == '\n' || c == '\r' || c as int == 0x2028 || c as int == 0x2029
  }

  /**
   * The successive matches of `/.{1,2}/g`: runs of non-line-terminator
   * characters cut greedily into pairs, the last piece of a run of odd
   * length being a single character; line terminators are skipped.
   */
  function MatchPairs(s: string): (r: seq<string>)
    ensures forall i :: 0 <= i < |r| ==> 1 <= |r[i]| <= 2
    ensures s != [] && !IsLineTerminator(s[0]) ==> r != []
    decreases |s|
  {
    if s == [] then []
    else if IsLineTerminator(s[0]) then MatchPairs(s[1..])
    else if |s| >= 2 && !IsLineTerminator(s[1]) then [s[..2]] + MatchPairs(s[2..])
    else [s[..1]] + MatchPairs(s[1..])
  }

  /** `match` returns null exactly when the string has no character but line terminators. */
  lemma {:induction false} MatchPairsEmpty(s: string)
    ensures MatchPairs(s) == [] <==> forall i :: 0 <= i < |s| ==> IsLineTerminator(s[i])
    decreases |s|
  {
    if s != [] && IsLineTerminator(s[0]) {
      MatchPairsEmpty(s[1..]);
      assert forall i :: 1 <= i < |s| ==> s[i] == s[1..][i - 1];
    }
  }

  /** ECMAScript's StrWhiteSpaceChar: white space and line terminators, which `parseInt` skips at the front. */
  predicate IsStrWhiteSpace(c: char)
  {
    IsLineTerminator(c) || c == '\t' || c == ' ' ||
    c as int == 0x0B || c as int == 0x0C || c as int == 0xA0 || c as int == 0xFEFF ||
    c as int == 0x1680 || 0x2000 <= c as int <= 0x200A ||
    c as int == 0x202F || c as int == 0x205F || c as int == 0x3000
  }

  function TrimStart(s: string): (r: string)
    ensures |r| <= |s| && r == s[|s| - |r|..]
    ensures r != [] ==> !IsStrWhiteSpace(r[0])
  {
    if s != [] && IsStrWhiteSpace(s[0]) then TrimStart(s[1..]) else s
  }

  /** The longest prefix of `s` made of digits of the radix. */
  function DigitPrefix(s: string, radix: nat): (r: string)
    ensures |r| <= |s| && r == s[..|r|]
    ensures AllDigits(s, radix) ==> r == s
  {
    if s == [] || !IsDigit(s[0], radix) then [] else [s[0]] + DigitPrefix(s[1..], radix)
  }

  /**
   * `Number.parseInt(s, 16)`, with None for NaN: leading white space is
   * skipped, one sign is read, a `0x`/`0X` prefix is dropped, and the longest
   * run of hex digits of either case that follows is the value.
   */
  function ParseInt16(s: string): Option<int>
  {
    var t := TrimStart(s);
    var z := DigitPrefix(DropHexPrefix(DropSign(t)), 16);
    if z == [] then None
    else if IsNegative(t) then Some(-(ReadDigits(z, 16) as int))
    else Some(ReadDigits(z, 16))
  }

  predicate IsNegative(t: string)
  {
    |t| > 0 && t[0] == '-'
  }

  function DropSign(t: string): string
  {
    if |t| > 0 && (t[0] == '-' || t[0] == '+') then t[1..] else t
  }

  function DropHexPrefix(u: string): string
  {
    if |u| >= 2 && u[0] == '0' && (u[1] == 'x' || u[1] == 'X') then u[2..] else u
  }

  /** The `Uint8Array` element conversion ToUint8: NaN is 0, any integer is taken modulo 256. */
  function ToUint8(n: Option<int>): (r: byte)
    ensures n.None? ==> r == 0
    ensures n.Some? ==> (n.value - r as int) % 256 == 0
    ensures n.Some? && 0 <= n.value < 256 ==> r as int == n.value
  {
    match n
    case None => 0
    case Some(x) => (x % 256) as byte
  }

  /** One match through `Number.parseInt(_, 16)` and into a `Uint8Array` element. */
  function DecodeChunk(chunk: string): byte
  {
    ToUint8(ParseInt16(chunk))
  }

  function DecodeChunks(chunks: seq<string>): (r: seq<byte>)
    ensures |r| == |chunks|
  {
    if chunks == [] then [] else [DecodeChunk(chunks[0])] + DecodeChunks(chunks[1..])
  }

  /** The key bytes the decoder derives from a key string; None where `match` returns null and `.map` throws. */
  function DecodeKeyString(s: string): (r: Option<seq<byte>>)
    ensures r.Some? ==> |r.value| == |MatchPairs(s)| > 0
  {
    var chunks := MatchPairs(s);
    if chunks == [] then None else Some(DecodeChunks(chunks))
  }

  /** The two-digit text of each key byte, in order. */
  function BytePairs(key: seq<byte>): (r: seq<string>)
    ensures |r| == |key|
    ensures forall i :: 0 <= i < |r| ==> r[i] == ByteToHex(key[i])
  {
    if key == [] then []
    else
      var tail := BytePairs(key[1..]);
      assert forall i :: 1 <= i < |key| ==> key[i] == key[1..][i - 1];
      [ByteToHex(key[0])] + tail
  }

  /** The regular expression takes the key string two hex digits at a time, one pair per key byte. */
  lemma {:induction false} MatchPairsOfHexEncode(key: seq<byte>)
    ensures MatchPairs(HexEncode(key)) == BytePairs(key)
  {
    if key != [] {
      var h := HexEncode(key);
      var head := ByteToHex(key[0]);
      assert h == head + HexEncode(key[1..]);
      assert h[..2] == head && h[2..] == HexEncode(key[1..]);
      assert !IsLineTerminator(h[0]) && !IsLineTerminator(h[1]);
      MatchPairsOfHexEncode(key[1..]);
    }
  }

  /** `parseInt(_, 16)` reads the two digits of a key byte back, and ToUint8 keeps the value. */
  lemma ParseInt16OfByteHex(b: byte)
    ensures ParseInt16(ByteToHex(b)) == Some(b as int)
    ensures DecodeChunk(ByteToHex(b)) == b
  {
    var s := ByteToHex(b);
    assert !IsStrWhiteSpace(s[0]) && s[0] != '-' && s[0] != '+' && s[1] != 'x' && s[1] != 'X';
    assert TrimStart(s) == s;
    assert !IsNegative(s) && DropSign(s) == s && DropHexPrefix(s) == s;
    assert AllDigits(s, 16) by {
      assert IsDigit(s[0], 16) && IsDigit(s[1], 16);
    }
    assert DigitPrefix(s, 16) == s;
    assert ParseInt16(s) == Some(b as int);
    assert ToUint8(Some(b as int)) == b;
  }

  lemma DecodeChunksCons(chunk: string, rest: seq<string>)
    ensures DecodeChunks([chunk] + rest) == [DecodeChunk(chunk)] + DecodeChunks(rest)
  {
    var chunks := [chunk] + rest;
    assert chunks[0] == chunk && chunks[1..] == rest;
  }

  /** `DecodeChunks` decodes each chunk on its own. */
  lemma {:induction false} DecodeChunksPointwise(chunks: seq<string>, bytes: seq<byte>)
    requires |chunks| == |bytes|
    requires forall i :: 0 <= i < |chunks| ==> DecodeChunk(chunks[i]) == bytes[i]
    ensures DecodeChunks(chunks) == bytes
  {
    if chunks != [] {
      DecodeChunksCons(chunks[0], chunks[1..]);
      assert chunks == [chunks[0]] + chunks[1..];
      DecodeChunksPointwise(chunks[1..], bytes[1..]);
      assert bytes == [bytes[0]] + bytes[1..];
    }
  }

  lemma DecodeBytePairs(key: seq<byte>)
    ensures DecodeChunks(BytePairs(key)) == key
  {
    var pairs := BytePairs(key);
    forall i | 0 <= i < |pairs| ensures DecodeChunk(pairs[i]) == key[i] {
      ParseInt16OfByteHex(key[i]);
    }
    DecodeChunksPointwise(pairs, key);
  }

  /** Decoding the key string reproduces the key byte for byte (a key of no bytes gives "", which `match` rejects). */
  lemma HexRoundTrip(key: seq<byte>)
    requires |key| > 0
    ensures DecodeKeyString(HexEncode(key)) == Some(key)
  {
    MatchPairsOfHexEncode(key);
    DecodeBytePairs(key);
  }

  lemma HexEncodeInjective(k1: seq<byte>, k2: seq<byte>)
    requires HexEncode(k1) == HexEncode(k2)
    ensures k1 == k2
  {
    if |k1| > 0 {
      HexRoundTrip(k1);
      HexRoundTrip(k2);
    }
  }

  /** A chunk that does not start with a hex digit, a sign or white space is NaN to `parseInt`, which the `Uint8Array` stores as 0. */
  lemma NonHexChunkDecodesToZero(chunk: string)
    requires chunk != [] && !IsDigit(chunk[0], 16) && !IsStrWhiteSpace(chunk[0])
    requires chunk[0] != '-' && chunk[0] != '+'
    ensures ParseInt16(chunk) == None
    ensures DecodeChunk(chunk) == 0
  {
    assert TrimStart(chunk) == chunk;
    assert DropSign(chunk) == chunk && DropHexPrefix(chunk) == chunk;
  }

  /** A single hex digit, as the last match of an odd-length string yields, is read as its value. */
  lemma SingleDigitChunk(c: char)
    requires IsDigit(c, 16)
    ensures DecodeChunk([c]) == DigitValue(c) as byte
  {
    var s := [c];
    assert !IsStrWhiteSpace(c) && c != '-' && c != '+';
    assert TrimStart(s) == s && DropSign(s) == s && DropHexPrefix(s) == s;
    assert DigitPrefix(s, 16) == s by { assert AllDigits(s, 16); }
    assert ReadDigits(s, 16) == DigitValue(c) by { assert s[..0] == []; }
  }

  /** Two hex digits of either case are read as one byte, high digit first. */
  lemma TwoDigitChunk(c0: char, c1: char)
    requires IsDigit(c0, 16) && IsDigit(c1, 16)
    ensures DigitValue(c0) * 16 + DigitValue(c1) < 256
    ensures DecodeChunk([c0, c1]) == (DigitValue(c0) * 16 + DigitValue(c1)) as byte
  {
    var s := [c0, c1];
    assert !IsStrWhiteSpace(c0) && c0 != '-' && c0 != '+' && c1 != 'x' && c1 != 'X';
    assert TrimStart(s) == s && DropSign(s) == s && DropHexPrefix(s) == s;
    assert DigitPrefix(s, 16) == s by { assert AllDigits(s, 16); }
    ReadTwoDigits(c0, c1, 16);
  }

  lemma MatchPairsOfThree(c0: char, c1: char, c2: char)
    requires !IsLineTerminator(c0) && !IsLineTerminator(c1) && !IsLineTerminator(c2)
    ensures MatchPairs([c0, c1, c2]) == [[c0, c1], [c2]]
  {
    var s := [c0, c1, c2];
    assert s[..2] == [c0, c1] && s[2..] == [c2];
    assert MatchPairs([c2]) == [[c2]] by { assert [c2][..1] == [c2] && [c2][1..] == []; }
  }

  lemma MatchThreeDigits(c0: char, c1: char, c2: char)
    requires IsDigit(c0, 16) && IsDigit(c1, 16) && IsDigit(c2, 16)
    ensures DecodeKeyString([c0, c1, c2]) == Some(DecodeChunks([[c0, c1], [c2]]))
  {
    assert !IsLineTerminator(c0) && !IsLineTerminator(c1) && !IsLineTerminator(c2);
    MatchPairsOfThree(c0, c1, c2);
  }

  lemma DecodeThreeDigitChunks(c0: char, c1: char, c2: char)
    requires IsDigit(c0, 16) && IsDigit(c1, 16) && IsDigit(c2, 16)
    ensures DigitValue(c0) * 16 + DigitValue(c1) < 256
    ensures DecodeChunks([[c0, c1], [c2]]) == [(DigitValue(c0) * 16 + DigitValue(c1)) as byte, DigitValue(c2) as byte]
  {
    var chunks := [[c0, c1], [c2]];
    TwoDigitChunk(c0, c1);
    var bytes := [(DigitValue(c0) * 16 + DigitValue(c1)) as byte, DigitValue(c2) as byte];
    forall i | 0 <= i < 2 ensures DecodeChunk(chunks[i]) == bytes[i] {
      if i == 0 { TwoDigitChunk(c0, c1); } else { SingleDigitChunk(c2); }
    }
    DecodeChunksPointwise(chunks, bytes);
  }

  /** Three hex digits decode to two bytes: the first two make one byte, the last digit alone the second. */
  lemma ThreeDigitKeyStringDecodes(c0: char, c1: char, c2: char)
    requires IsDigit(c0, 16) && IsDigit(c1, 16) && IsDigit(c2, 16)
    ensures DecodeKeyString([c0, c1, c2]) ==
      Some([(DigitValue(c0) * 16 + DigitValue(c1)) as byte, DigitValue(c2) as byte])
  {
    MatchThreeDigits(c0, c1, c2);
    DecodeThreeDigitChunks(c0, c1, c2);
  }

  /** On a string of hex digits of odd length, `/.{1,2}/g` takes the pairs of all but the last digit, then the last digit alone. */
  lemma {:induction false} MatchPairsOfOddDigits(s: string)
    requires AllDigits(s, 16) && |s| % 2 == 1
    ensures MatchPairs(s) == MatchPairs(s[..|s| - 1]) + [[s[|s| - 1]]]
    ensures |MatchPairs(s[..|s| - 1])| == |s| / 2
    decreases |s|
  {
    assert IsDigit(s[0], 16);
    if |s| == 1 {
      assert s[..1] == [s[0]] && s[1..] == [] && s[..0] == [];
    } else {
      assert IsDigit(s[1], 16);
      var init := s[..|s| - 1];
      var rest := s[2..];
      assert AllDigits(rest, 16) by {
        forall i | 0 <= i < |rest| ensures IsDigit(rest[i], 16) { assert rest[i] == s[i + 2]; }
      }
      MatchPairsOfOddDigits(rest);
      assert rest[|rest| - 1] == s[|s| - 1];
      assert init[..2] == s[..2] && init[2..] == rest[..|rest| - 1];
      assert init[0] == s[0] && init[1] == s[1];
    }
  }

  lemma {:induction false} DecodeChunksSnoc(chunks: seq<string>, chunk: string)
    ensures DecodeChunks(chunks + [chunk]) == DecodeChunks(chunks) + [DecodeChunk(chunk)]
  {
    if chunks != [] {
      var all := chunks + [chunk];
      assert all[0] == chunks[0] && all[1..] == chunks[1..] + [chunk];
      DecodeChunksSnoc(chunks[1..], chunk);
    }
  }

  /**
   * A key string of odd length is not refused: it decodes to one byte more
   * than half its length, the first ones from the digit pairs before the
   * last digit and the last one from that digit alone.
   */
  lemma OddLengthKeyStringDecodes(s: string)
    requires AllDigits(s, 16) && |s| % 2 == 1
    ensures DecodeKeyString(s).Some?
    ensures |DecodeKeyString(s).value| == |s| / 2 + 1
    ensures DecodeKeyString(s).value ==
      DecodeChunks(MatchPairs(s[..|s| - 1])) + [DigitValue(s[|s| - 1]) as byte]
  {
    MatchPairsOfOddDigits(s);
    DecodeChunksSnoc(MatchPairs(s[..|s| - 1]), [s[|s| - 1]]);
    assert IsDigit(s[|s| - 1], 16);
    SingleDigitChunk(s[|s| - 1]);
  }

  // ---------------------------------------------------------------------------
  // The container: IV || ciphertext-with-tag
  // ---------------------------------------------------------------------------

  /** `TypedArray.prototype.set(source, offset)`: copies `source` into `target` from `offset` on. */
  method SetAt(target: array<byte>, source: seq<byte>, offset: nat)
    requires offset + |source| <= target.Length
    modifies target
    ensures target[..] == old(target[..offset]) + source + old(target[offset + |source|..])
  {
    var i := 0;
    while i < |source|
      invariant 0 <= i <= |source|
      invariant forall j :: 0 <= j < target.Length ==>
        target[j] == if offset <= j < offset + i then source[j - offset] else old(target[j])
    {
      target[offset + i] := source[i];
      i := i + 1;
    }
    ghost var was := old(target[..]);
    assert target[..] == was[..offset] + source + was[offset + |source|..];
  }

  /** `new Uint8Array(iv.length + ct.byteLength)` filled by `set(iv, 0)` and `set(ct, iv.length)`. */
  method AssembleContainer(iv: seq<byte>, ct: seq<byte>) returns (buf: array<byte>)
    ensures fresh(buf)
    ensures buf[..] == iv + ct
  {
    buf := new byte[|iv| + |ct|];
    SetAt(buf, iv, 0);
    SetAt(buf, ct, |iv|);
  }

  /** `TypedArray.prototype.slice(start, end)` for non-negative bounds: both are clamped to the length. */
  function Slice(s: seq<byte>, start: nat, end: nat): (r: seq<byte>)
    ensures |r| <= |s|
    ensures start <= end <= |s| ==> r == s[start..end]
    ensures start <= |s| <= end ==> r == s[start..]
    ensures end <= start || |s| <= start ==> r == []
  {
    var from := if start < |s| then start else |s|;
    var to := if end < |s| then end else |s|;
    if from <= to then s[from..to] else []
  }

  /** `slice(0, 12)` and `slice(12)`: the IV and the ciphertext; a short container is not rejected here. */
  function SplitContainer(c: seq<byte>): (parts: (seq<byte>, seq<byte>))
    ensures parts.0 + parts.1 == c
    ensures |parts.0| == if |c| < IvLength then |c| else IvLength
  {
    (Slice(c, 0, IvLength), Slice(c, IvLength, |c|))
  }

  /** Splitting undoes the assembly: the first 12 bytes are the IV, the rest the ciphertext in order. */
  lemma SplitAssembled(iv: seq<byte>, ct: seq<byte>)
    requires |iv| == IvLength
    ensures SplitContainer(iv + ct) == (iv, ct)
  {
    var c := iv + ct;
    assert c[0..IvLength] == iv;
    assert c[IvLength..|c|] == ct;
  }

  // ---------------------------------------------------------------------------
  // encryptAudio / decryptAudio
  // ---------------------------------------------------------------------------

  /** Where `decryptAudio` throws: `match` found nothing, `importKey` refused the length, or the tag did not verify. */
  datatype DecryptError = KeyStringUnmatched | KeyImportRejected | AuthenticationFailed

  /** `importKey("raw", ...)` for AES accepts 128-, 192- and 256-bit keys only. */
  predicate ImportableKeyLength(n: nat) { n == 16 || n == 24 || n == 32 }

  /** `decryptAudio(encryptedBlob, encryptionKeyString)` on the blob's bytes. */
  function DecryptAudio(aead: Aead, encryptedData: seq<byte>, keyString: string): (r: Result<seq<byte>, DecryptError>)
    ensures r == Failure(KeyStringUnmatched) <==> DecodeKeyString(keyString).None?
    ensures r == Failure(KeyImportRejected) <==>
      DecodeKeyString(keyString).Some? && !ImportableKeyLength(|DecodeKeyString(keyString).value|)
    ensures r.Success? ==>
      && DecodeKeyString(keyString).Some? && ImportableKeyLength(|DecodeKeyString(keyString).value|)
      && aead.open(DecodeKeyString(keyString).value, SplitContainer(encryptedData).0, SplitContainer(encryptedData).1) == Some(r.value)
    ensures DecodeKeyString(keyString).Some? && ImportableKeyLength(|DecodeKeyString(keyString).value|) ==>
      (r == Failure(AuthenticationFailed) <==>
        aead.open(DecodeKeyString(keyString).value, SplitContainer(encryptedData).0, SplitContainer(encryptedData).1).None?)
  {
    var parts := SplitContainer(encryptedData);
    match DecodeKeyString(keyString)
    case None => Failure(KeyStringUnmatched)
    case Some(keyData) =>
      if !ImportableKeyLength(|keyData|) then Failure(KeyImportRejected)
      else match aead.open(keyData, parts.0, parts.1)
        case None => Failure(AuthenticationFailed)
        case Some(plain) => Success(plain)
  }

  /** The round trip: the container and key string `encryptAudio` produces decrypt to the audio sealed. */
  lemma DecryptRoundTrip(aead: Aead, key: seq<byte>, iv: seq<byte>, audio: seq<byte>)
    requires Sound(aead)
    requires |key| == KeyLength && |iv| == IvLength
    ensures DecryptAudio(aead, iv + aead.seal(key, iv, audio), HexEncode(key)) == Success(audio)
  {
    SplitAssembled(iv, aead.seal(key, iv, audio));
    HexRoundTrip(key);
  }

  /** A key string with nothing but line terminators (the empty one included) throws before any decryption. */
  lemma DecryptNeedsKeyText(aead: Aead, encryptedData: seq<byte>, keyString: string)
    ensures DecryptAudio(aead, encryptedData, keyString) == Failure(KeyStringUnmatched)
        <==> forall i :: 0 <= i < |keyString| ==> IsLineTerminator(keyString[i])
  {
    MatchPairsEmpty(keyString);
  }

  lemma DecryptEmptyKeyString(aead: Aead, encryptedData: seq<byte>)
    ensures DecryptAudio(aead, encryptedData, "") == Failure(KeyStringUnmatched)
  {
  }

  /** The key string of a key of a length AES does not have is refused at import, whatever the container. */
  lemma DecryptRejectsKeyLength(aead: Aead, encryptedData: seq<byte>, key: seq<byte>)
    requires |key| > 0 && !ImportableKeyLength(|key|)
    ensures DecryptAudio(aead, encryptedData, HexEncode(key)) == Failure(KeyImportRejected)
  {
    HexRoundTrip(key);
  }

  /**
   * `encryptAudio(audioBlob)` with the generated key and IV passed in: the
   * key string is 64 lower-case hex digits decoding to the key, the container
   * is the IV followed by the sealed audio, and decrypting it gives the audio back.
   */
  method EncryptAudio(aead: Aead, key: seq<byte>, iv: seq<byte>, audio: seq<byte>)
    returns (encryptedData: seq<byte>, encryptionKey: string)
    requires |key| == KeyLength && |iv| == IvLength
    ensures |encryptionKey| == 2 * KeyLength
    ensures forall i :: 0 <= i < |encryptionKey| ==> IsLowerHex(encryptionKey[i])
    ensures DecodeKeyString(encryptionKey) == Some(key)
    ensures |encryptedData| >= IvLength
    ensures encryptedData[..IvLength] == iv && encryptedData[IvLength..] == aead.seal(key, iv, audio)
    ensures Sound(aead) ==> |encryptedData| == IvLength + |audio| + TagLength
    ensures Sound(aead) ==> DecryptAudio(aead, encryptedData, encryptionKey) == Success(audio)
  {
    encryptionKey := HexEncode(key);
    var sealed := aead.seal(key, iv, audio);
    var buf := AssembleContainer(iv, sealed);
    encryptedData := buf[..];
    HexRoundTrip(key);
    RoundTripIfSound(aead, key, iv, audio);
  }

  lemma RoundTripIfSound(aead: Aead, key: seq<byte>, iv: seq<byte>, audio: seq<byte>)
    requires |key| == KeyLength && |iv| == IvLength
    ensures Sound(aead) ==> |iv + aead.seal(key, iv, audio)| == IvLength + |audio| + TagLength
    ensures Sound(aead) ==> DecryptAudio(aead, iv + aead.seal(key, iv, audio), HexEncode(key)) == Success(audio)
  {
    if Sound(aead) {
      DecryptRoundTrip(aead, key, iv, audio);
    }
  }

  /** The payload 01 02 03 04 gives a 32-byte container and a 64-character key string that decrypt back to it. */
  method EncryptFourBytes(aead: Aead, key: seq<byte>, iv: seq<byte>)
    returns (encryptedData: seq<byte>, encryptionKey: string)
    requires Sound(aead)
    requires |key| == KeyLength && |iv| == IvLength
    ensures |encryptedData| == 32 && |encryptionKey| == 64
    ensures DecryptAudio(aead, encryptedData, encryptionKey) == Success([1, 2, 3, 4])
  {
    encryptedData, encryptionKey := EncryptAudio(aead, key, iv, [1, 2, 3, 4]);
  }
}
