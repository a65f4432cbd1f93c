/**
 * The smartplug wire codec of plug_tracker.py: a 4-byte big-endian length
 * prefix followed by the payload run through an XOR chain seeded with 171,
 * and the fixed command frames the tracker precomputes.
 */
module Codec {
  import opened Wrappers
  import opened Octets


  /** The seed of the XOR chain. */
  const Seed: Byte := 171

  /** `pack('>I', n)` refuses any length that does not fit in 32 bits. */
  const MaxLength := 0x1_0000_0000

  /** Characters `bytes([...])` accepts: code points below 256. */
  predicate IsLatin1(s: string) {
    forall i :: 0 <= i < |s| ==> s[i] as int < 256
  }

  /** A string the encoder accepts. */
  predicate Encodable(s: string) {
    IsLatin1(s) && |s| < MaxLength
  }

  /** `ord(c)` of a character below 256, as a byte. */
  function ByteOf(c: char): Byte
    requires c as int < 256
  {
    c as Byte
  }

  /** `chr(b)` of a byte. */
  function CharOf(b: Byte): char {
    b as char
  }

  /** The code points of a Latin-1 string, one byte each. */
  function Bytes(s: string): (b: seq<Byte>)
    requires IsLatin1(s)
    ensures |b| == |s|
    ensures forall i :: 0 <= i < |s| ==> b[i] == ByteOf(s[i])
  {
    seq(|s|, i requires 0 <= i < |s| => ByteOf(s[i]))
  }

  /** The string whose code points are the given bytes. */
  function Text(b: seq<Byte>): (s: string)
    ensures |s| == |b|
    ensures forall i :: 0 <= i < |b| ==> s[i] == CharOf(b[i])
  {
    seq(|b|, i requires 0 <= i < |b| => CharOf(b[i]))
  }

  /** `chr(ord(c)) == c` for a character below 256. */
  lemma CharOfByteOf(c: char)
    requires c as int < 256
    ensures CharOf(ByteOf(c)) == c
  {
    CharValue(c);
  }

  /** Turning a Latin-1 string into bytes and back gives the string. */
  lemma TextOfBytes(s: string)
    requires IsLatin1(s)
    ensures Text(Bytes(s)) == s
  {
    forall i | 0 <= i < |s| ensures Text(Bytes(s))[i] == s[i] {
      CharOfByteOf(s[i]);
    }
  }

  /** Text distributes over a leading byte. */
  lemma TextCons(a: Byte, rest: seq<Byte>)
    ensures Text([a] + rest) == [CharOf(a)] + Text(rest)
  {
  }

  lemma AppendOne<T>(done: seq<T>, x: T, rest: seq<T>)
    ensures done + ([x] + rest) == (done + [x]) + rest
  {
  }

  /**
   * The encrypting chain: each output byte is the running key XOR the input
   * byte, and the key then becomes that OUTPUT byte.
   */
  function Cipher(key: Byte, p: seq<Byte>): (c: seq<Byte>)
    ensures |c| == |p|
    decreases p
  {
    if p == [] then [] else
      var a := key ^ p[0];
      [a] + Cipher(a, p[1..])
  }

  /**
   * The decrypting chain: each output byte is the running key XOR the input
   * byte, and the key then becomes that INPUT byte.
   */
  function Decipher(key: Byte, c: seq<Byte>): (p: seq<Byte>)
    ensures |p| == |c|
    decreases c
  {
    if c == [] then [] else [key ^ c[0]] + Decipher(c[0], c[1..])
  }

  /** The key both chains use at position i of the ciphertext c. */
  function KeyAt(key: Byte, c: seq<Byte>, i: nat): Byte
    requires i < |c|
  {
    if i == 0 then key else c[i - 1]
  }

  /** Indexing past a leading element. */
  lemma ConsIndex<T>(a: T, t: seq<T>, i: nat)
    requires 0 < i <= |t|
    ensures ([a] + t)[i] == t[i - 1]
  {
  }

  /** Prepending a to t shifts the key positions by one, the new key being a. */
  lemma ConsKey(key: Byte, a: Byte, t: seq<Byte>, i: nat)
    requires 0 < i <= |t|
    ensures ([a] + t)[i] == t[i - 1]
    ensures KeyAt(a, t, i - 1) == KeyAt(key, [a] + t, i)
  {
  }

  /** Ciphertext byte i is plaintext byte i XOR the previous ciphertext byte (the seed for i = 0). */
  lemma {:induction false} CipherAt(key: Byte, p: seq<Byte>, i: nat)
    requires i < |p|
    ensures Cipher(key, p)[i] == p[i] ^ KeyAt(key, Cipher(key, p), i)
    decreases i
  {
    if i > 0 {
      var a := key ^ p[0];
      CipherAt(a, p[1..], i - 1);
      ConsKey(key, a, Cipher(a, p[1..]), i);
      assert p[1..][i - 1] == p[i];
    }
  }

  /** Decrypted byte i is ciphertext byte i XOR the previous ciphertext byte (the seed for i = 0). */
  lemma {:induction false} DecipherAt(key: Byte, c: seq<Byte>, i: nat)
    requires i < |c|
    ensures Decipher(key, c)[i] == c[i] ^ KeyAt(key, c, i)
    decreases i
  {
    if i > 0 {
      DecipherAt(c[0], c[1..], i - 1);
      ConsIndex(key ^ c[0], Decipher(c[0], c[1..]), i);
      ConsKey(key, c[0], c[1..], i);
      assert [c[0]] + c[1..] == c;
    }
  }


  /** Both chains see the same key sequence (the ciphertext), so deciphering undoes ciphering. */
  lemma DecipherCipher(key: Byte, p: seq<Byte>)
    ensures Decipher(key, Cipher(key, p)) == p
  {
    var c := Cipher(key, p);
    forall i | 0 <= i < |p| ensures Decipher(key, c)[i] == p[i] {
      CipherAt(key, p, i);
      DecipherAt(key, c, i);
      XorCancel(p[i], KeyAt(key, c, i));
    }
  }

  /**
   * Enciphering what was deciphered gives the ciphertext back: by induction on
   * the position, both chains then see the same keys.
   */
  lemma {:induction false} CipherDecipherAt(key: Byte, c: seq<Byte>, i: nat)
    requires i < |c|
    ensures Cipher(key, Decipher(key, c))[i] == c[i]
  {
    var p := Decipher(key, c);
    var c' := Cipher(key, p);
    if i > 0 {
      CipherDecipherAt(key, c, i - 1);
    }
    SameKey(key, c', c, i);
    CipherAt(key, p, i);
    DecipherAt(key, c, i);
    XorCancel(c[i], KeyAt(key, c, i));
  }

  /** Two ciphertexts that agree before position i hand the same key to position i. */
  lemma SameKey(key: Byte, c: seq<Byte>, d: seq<Byte>, i: nat)
    requires i < |c| && i < |d|
    requires i > 0 ==> c[i - 1] == d[i - 1]
    ensures KeyAt(key, c, i) == KeyAt(key, d, i)
  {
  }

  /** The two chains are inverse bijections. */
  lemma CipherDecipher(key: Byte, c: seq<Byte>)
    ensures Cipher(key, Decipher(key, c)) == c
  {
    forall i | 0 <= i < |c| ensures Cipher(key, Decipher(key, c))[i] == c[i] {
      CipherDecipherAt(key, c, i);
    }
  }

  /** `pack('>I', n)`: four bytes, most significant first. */
  function BigEndian32(n: nat): (b: seq<Byte>)
    requires n < MaxLength
    ensures |b| == 4
  {
    var n1 := n / 0x100;
    var n2 := n1 / 0x100;
    var n3 := n2 / 0x100;
    [n3 as Byte, (n2 % 0x100) as Byte, (n1 % 0x100) as Byte, (n % 0x100) as Byte]
  }

  /** The unsigned number four big-endian bytes stand for. */
  function FromBigEndian32(b: seq<Byte>): nat
    requires |b| == 4
  {
    ((b[0] as nat * 0x100 + b[1] as nat) * 0x100 + b[2] as nat) * 0x100 + b[3] as nat
  }

  /** The length prefix reads back as the length. */
  lemma BigEndianRoundTrip(n: nat)
    requires n < MaxLength
    ensures FromBigEndian32(BigEndian32(n)) == n
  {
    var n1 := n / 0x100;
    var n2 := n1 / 0x100;
    var n3 := n2 / 0x100;
    ByteValue(n3);
    ByteValue(n2 % 0x100);
    ByteValue(n1 % 0x100);
    ByteValue(n % 0x100);
    var b := BigEndian32(n);
    var x0, x1, x2, x3 := n3, n2 % 0x100, n1 % 0x100, n % 0x100;
    assert b[0] as nat == x0 && b[1] as nat == x1 && b[2] as nat == x2 && b[3] as nat == x3;
    assert FromBigEndian32(b) == ((x0 * 0x100 + x1) * 0x100 + x2) * 0x100 + x3;
  }

  /** What `encrypt(s)` returns: the length prefix, then the ciphered code points. */
  function Frame(s: string): seq<Byte>
    requires Encodable(s)
  {
    BigEndian32(|s|) + Cipher(Seed, Bytes(s))
  }

  /** What `decrypt(b)` returns. */
  function Plaintext(b: seq<Byte>): string {
    Text(Decipher(Seed, b))
  }

  /** `data[4:]`: the bytes after the length prefix, empty when there are at most four. */
  function Payload(data: seq<Byte>): (p: seq<Byte>)
    ensures |data| >= 4 ==> data == data[..4] + p
    ensures |data| < 4 ==> p == []
  {
    if |data| < 4 then [] else data[4..]
  }

  /**
   * The frame is 4 + |s| bytes long, its prefix reads back as |s|, and byte i
   * after the prefix is character i XOR the previous frame byte (the seed for i = 0).
   */
  lemma FrameLayout(s: string)
    requires Encodable(s)
    ensures |Frame(s)| == 4 + |s|
    ensures FromBigEndian32(Frame(s)[..4]) == |s|
    ensures forall i :: 0 <= i < |s| ==>
      Frame(s)[4 + i] == ByteOf(s[i]) ^ (if i == 0 then Seed else Frame(s)[3 + i])
  {
    var f := Frame(s);
    assert f[..4] == BigEndian32(|s|);
    BigEndianRoundTrip(|s|);
    forall i | 0 <= i < |s|
      ensures f[4 + i] == ByteOf(s[i]) ^ (if i == 0 then Seed else f[3 + i])
    {
      CipherAt(Seed, Bytes(s), i);
      assert f[4 + i] == Cipher(Seed, Bytes(s))[i];
      if i > 0 {
        assert f[3 + i] == Cipher(Seed, Bytes(s))[i - 1];
      }
    }
  }

  /** `decrypt(encrypt(s)[4:]) == s` for every encodable string, the empty one included. */
  lemma RoundTrip(s: string)
    requires Encodable(s)
    ensures Payload(Frame(s)) == Cipher(Seed, Bytes(s))
    ensures Plaintext(Payload(Frame(s))) == s
  {
    assert Frame(s)[4..] == Cipher(Seed, Bytes(s));
    DecipherCipher(Seed, Bytes(s));
    TextOfBytes(s);
  }

  /** One step of the encrypting chain, taken at position i. */
  lemma CipherStep(key: Byte, b: seq<Byte>, i: nat)
    requires i < |b|
    ensures Cipher(key, b[i..]) == [key ^ b[i]] + Cipher(key ^ b[i], b[i + 1..])
  {
    assert b[i..][1..] == b[i + 1..];
  }

  /** One step of the decrypting chain, taken at position i. */
  lemma DecipherStep(key: Byte, c: seq<Byte>, i: nat)
    requires i < |c|
    ensures Decipher(key, c[i..]) == [key ^ c[i]] + Decipher(c[i], c[i + 1..])
  {
    assert c[i..][1..] == c[i + 1..];
  }

  /** One turn of the encrypting loop: character i moves from the chain into the output. */
  lemma EncryptStep(done: seq<Byte>, key: Byte, s: string, i: nat)
    requires IsLatin1(s) && i < |s|
    ensures done + Cipher(key, Bytes(s)[i..]) ==
            (done + [key ^ ByteOf(s[i])]) + Cipher(key ^ ByteOf(s[i]), Bytes(s)[i + 1..])
  {
    CipherStep(key, Bytes(s), i);
    AppendOne(done, key ^ ByteOf(s[i]), Cipher(key ^ ByteOf(s[i]), Bytes(s)[i + 1..]));
  }

  /** `encrypt`, plug_tracker.py:35-43: the accumulator loop over the characters. */
  method Encrypt(s: string) returns (result: seq<Byte>)
    requires Encodable(s)
    ensures result == Frame(s)
  {
    var key := Seed;
    result := BigEndian32(|s|);
    for i := 0 to |s|
      invariant result + Cipher(key, Bytes(s)[i..]) == Frame(s)
    {
      EncryptStep(result, key, s, i);
      var a := key ^ ByteOf(s[i]);
      key := a;
      result := result + [a];
    }
  }

  /** One turn of the decrypting loop: byte i moves from the chain into the output. */
  lemma DecryptStep(done: string, key: Byte, data: seq<Byte>, i: nat)
    requires i < |data|
    ensures done + Text(Decipher(key, data[i..])) ==
            (done + [CharOf(key ^ data[i])]) + Text(Decipher(data[i], data[i + 1..]))
  {
    DecipherStep(key, data, i);
    TextCons(key ^ data[i], Decipher(data[i], data[i + 1..]));
    AppendOne(done, CharOf(key ^ data[i]), Text(Decipher(data[i], data[i + 1..])));
  }

  /** `decrypt`, plug_tracker.py:46-54: the accumulator loop over the bytes. */
  method Decrypt(data: seq<Byte>) returns (result: string)
    ensures result == Plaintext(data)
  {
    var key := Seed;
    result := "";
    for i := 0 to |data|
      invariant result + Text(Decipher(key, data[i..])) == Plaintext(data)
    {
      DecryptStep(result, key, data, i);
      var a := key ^ data[i];
      key := data[i];
      result := result + [CharOf(a)];
    }
  }

  /** The command texts of the tracker's COMMANDS table. */
  const SetRelayOffText: string := "{\"system\":{\"set_relay_state\":{\"state\":0}}}"
  const SetRelayOnText: string := "{\"system\":{\"set_relay_state\":{\"state\":1}}}"
  const SysinfoText: string := "{\"system\":{\"get_sysinfo\":null}}"

  /** The keys of `COMMANDS['state']`: the two relay states. */
  predicate IsRelayState(state: int) {
    state == 0 || state == 1
  }

  /** The text behind `COMMANDS['state'][state]`; `None` where that lookup raises KeyError. */
  function StateText(state: int): (r: Option<string>)
    ensures r.Some? <==> IsRelayState(state)
    ensures r.Some? ==> Encodable(r.value)
  {
    if state == 0 then Some(SetRelayOffText)
    else if state == 1 then Some(SetRelayOnText)
    else None
  }

  /** `COMMANDS['state'][state]`: the frame for a relay state, or `None` (KeyError). */
  function StateCommand(state: int): (r: Option<seq<Byte>>)
    ensures r.Some? <==> IsRelayState(state)
  {
    match StateText(state)
    case Some(t) => Some(Frame(t))
    case None => None
  }

  /** `COMMANDS['sysinfo']`. */
  const SysinfoCommand: seq<Byte> := Frame(SysinfoText)

  /** The sysinfo text is one the encoder accepts. */
  lemma SysinfoEncodable()
    ensures Encodable(SysinfoText)
  {
  }

  /** Every frame of the state table decodes back to its command text and names its length. */
  lemma CommandsDecode(state: int)
    requires IsRelayState(state)
    ensures Plaintext(Payload(StateCommand(state).value)) == StateText(state).value
    ensures FromBigEndian32(StateCommand(state).value[..4]) == |StateText(state).value|
  {
    RoundTrip(StateText(state).value);
    FrameLayout(StateText(state).value);
  }

  /** The sysinfo frame decodes back to its command text. */
  lemma SysinfoDecodes()
    ensures Plaintext(Payload(SysinfoCommand)) == SysinfoText
  {
    var t := SysinfoText;
    RoundTrip(t);
  }
}
