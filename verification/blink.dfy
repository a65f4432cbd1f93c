/**
 * The one-shot blinker of plug_blink.py: its own copy of the codec, the
 * `set_relay_state` command text, the reply handling of `_send_command`,
 * and the toggling sequence of `main` with its final restore.
 */
module Blink {
  import opened Octets
  import Codec

  /** `SmartPlug.encrypt`, plug_blink.py:27-35. */
  method Encrypt(s: string) returns (result: seq<Byte>)
    requires Codec.Encodable(s)
    ensures result == Codec.Frame(s)
  {
    var key := Codec.Seed;
    result := Codec.BigEndian32(|s|);
    for i := 0 to |s|
      invariant result + Codec.Cipher(key, Codec.Bytes(s)[i..]) == Codec.Frame(s)
    {
      Codec.EncryptStep(result, key, s, i);
      var a := key ^ Codec.ByteOf(s[i]);
      key := a;
      result := result + [a];
    }
  }

  /** `SmartPlug.decrypt`, plug_blink.py:37-45. */
  method Decrypt(data: seq<Byte>) returns (result: string)
    ensures result == Codec.Plaintext(data)
  {
    var key := Codec.Seed;
    result := "";
    for i := 0 to |data|
      invariant result + Codec.Text(Codec.Decipher(key, data[i..])) == Codec.Plaintext(data)
    {
      Codec.DecryptStep(result, key, data, i);
      var a := key ^ data[i];
      key := data[i];
      result := result + [Codec.CharOf(a)];
    }
  }

  /** The digits of a natural number, most significant first, as `str` writes them. */
  function Digits(n: nat): (r: string)
    ensures |r| >= 1
    ensures forall i :: 0 <= i < |r| ==> '0' <= r[i] <= '9'
    decreases n
  {
    var d := [(n % 10) as char + '0'];
    if n < 10 then d else Digits(n / 10) + d
  }

  /** The value of a string of decimal digits. */
  function DigitsValue(r: string): int
    requires forall i :: 0 <= i < |r| ==> '0' <= r[i] <= '9'
  {
    if r == [] then 0 else 10 * DigitsValue(r[..|r| - 1]) + (r[|r| - 1] - '0') as int
  }

  /** Reading the digits back gives the number. */
  lemma {:induction false} DigitsRoundTrip(n: nat)
    ensures DigitsValue(Digits(n)) == n
    decreases n
  {
    var d := [(n % 10) as char + '0'];
    if n >= 10 {
      DigitsRoundTrip(n / 10);
      var r := Digits(n / 10) + d;
      assert r[..|r| - 1] == Digits(n / 10);
    }
  }

  /** `str(n)` of a Python int. */
  function Decimal(n: int): string {
    if n < 0 then "-" + Digits(-n) else Digits(n)
  }

  /** The command text `set_relay_state` builds, plug_blink.py:65. */
  function RelayCommand(state: int): string {
    "{\"system\":{\"set_relay_state\":{\"state\":" + Decimal(state) + "}}}"
  }

  /**
   * For the two relay states the blinker builds the same text, and hence the
   * same frame, as the tracker's precomputed COMMANDS table.
   */
  lemma RelayCommandMatchesTracker(state: int)
    requires state == 0 || state == 1
    ensures Codec.StateText(state).Some? && RelayCommand(state) == Codec.StateText(state).value
    ensures Codec.Encodable(RelayCommand(state))
    ensures Codec.Frame(RelayCommand(state)) == Codec.StateCommand(state).value
  {
    assert Decimal(state) == [state as char + '0'];
  }

  /**
   * `_send_command`, plug_blink.py:47-57, after the connection is made: the
   * frame sent for the command and the text decoded from the bytes received,
   * their 4-byte prefix dropped.
   */
  method SendCommand(command: string, received: seq<Byte>) returns (sent: seq<Byte>, reply: string)
    requires Codec.Encodable(command)
    ensures sent == Codec.Frame(command)
    ensures reply == Codec.Plaintext(Codec.Payload(received))
    ensures |received| <= 4 ==> reply == ""
  {
    sent := Encrypt(command);
    var payload := if |received| >= 4 then received[4..] else [];
    reply := Decrypt(payload);
  }

  /** `state ^ 1` on a Python int: flips the lowest bit, negative numbers included. */
  function FlipLow(x: int): (r: int)
    ensures r != x
    ensures x == 0 || x == 1 ==> r == 1 - x
    ensures r / 2 == x / 2
  {
    if x % 2 == 0 then x + 1 else x - 1
  }

  /** Flipping twice restores the value. */
  lemma FlipLowTwice(x: int)
    ensures FlipLow(FlipLow(x)) == x
  {
  }

  /** On a byte, the flip is the bitwise XOR with 1. */
  lemma FlipLowIsXor(b: Byte)
    ensures FlipLow(b as int) == (b ^ 1) as int
  {
    if b as int % 2 == 0 {
      assert b & 1 == 0;
    } else {
      assert b & 1 == 1;
    }
  }

  /**
   * The relay states `main` writes, plug_blink.py:91-104: `toggles` flips of
   * the current state, then the original state again when the flips left the
   * plug in the other state.
   */
  method BlinkWrites(original: int, toggles: int) returns (writes: seq<int>)
    ensures toggles <= 0 ==> writes == []
    ensures toggles > 0 ==> |writes| == toggles + toggles % 2
    ensures forall i :: 0 <= i < toggles && i < |writes| ==>
              writes[i] == (if i % 2 == 0 then FlipLow(original) else original)
    ensures toggles > 0 ==> (|writes| == toggles + 1 <==> toggles % 2 == 1)
    ensures toggles > 0 ==> writes[|writes| - 1] == original
    ensures forall i :: 0 <= i < |writes| - 1 ==> writes[i] != writes[i + 1]
  {
    var current := original;
    writes := [];
    var i := 0;
    while i < toggles
      invariant 0 <= i <= (if toggles > 0 then toggles else 0)
      invariant |writes| == i
      invariant current == (if i % 2 == 0 then original else FlipLow(original))
      invariant forall j :: 0 <= j < i ==> writes[j] == (if j % 2 == 0 then FlipLow(original) else original)
    {
      FlipLowTwice(original);
      current := FlipLow(current);
      writes := writes + [current];
      i := i + 1;
    }
    if current != original {
      writes := writes + [original];
    }
  }
}
