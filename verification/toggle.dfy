/**
 * The one-shot switch of plug_toggle.py: its own copy of the codec, its
 * COMMANDS table, and the decision to turn the plug on or off.
 */
module Toggle {
  import opened Wrappers
  import opened Octets
  import Codec

  /** `encrypt`, plug_toggle.py:13-20. */
  method Encrypt(s: string) returns (result: seq<Byte>)
    requires Codec.Encodable(s)
    ensures result == Codec.Frame(s)
  {
    var key := Codec.Seed;
    result := Codec.BigEndian32(|s|);
    for i := 0 to |s|
      invariant result + Codec.Cipher(key, Codec.Bytes(s)[i..]) == Codec.Frame(s)
    {
      Codec.EncryptStep(result, key, s, i);
      var a := key ^ Codec.ByteOf(s[i]);
      key := a;
      result := result + [a];
    }
  }

  /** `decrypt`, plug_toggle.py:23-30. */
  method Decrypt(data: seq<Byte>) returns (result: string)
    ensures result == Codec.Plaintext(data)
  {
    var key := Codec.Seed;
    result := "";
    for i := 0 to |data|
      invariant result + Codec.Text(Codec.Decipher(key, data[i..])) == Codec.Plaintext(data)
    {
      Codec.DecryptStep(result, key, data, i);
      var a := key ^ data[i];
      key := data[i];
      result := result + [Codec.CharOf(a)];
    }
  }

  /**
   * The `COMMANDS` table, plug_toggle.py:56-62, built with this file's own
   * encoder: entry for entry the table plug_tracker.py precomputes.
   */
  method BuildCommands() returns (off: seq<Byte>, on: seq<Byte>, sysinfo: seq<Byte>)
    ensures off == Codec.StateCommand(0).value
    ensures on == Codec.StateCommand(1).value
    ensures sysinfo == Codec.SysinfoCommand
  {
    assert Codec.StateText(0).Some? && Codec.StateText(1).Some?;
    off := Encrypt(Codec.SetRelayOffText);
    on := Encrypt(Codec.SetRelayOnText);
    Codec.SysinfoEncodable();
    sysinfo := Encrypt(Codec.SysinfoText);
  }

  /**
   * The decision of plug_toggle.py:82-87 for the flags `--on`/`--off` and the
   * queried relay state: the states passed to `set_state`, or `None` where
   * `STATES[relay_state]` raises IndexError before any decision is taken.
   */
  method Decide(on: bool, off: bool, relayState: int) returns (r: Option<seq<int>>)
    ensures r.None? <==> !(-2 <= relayState < 2)
    ensures r.Some? ==> |r.value| <= 1
    ensures r.Some? ==> (r.value == [1] <==> on && relayState == 0)
    ensures r.Some? ==> (r.value == [0] <==> off && relayState == 1)
    ensures r.Some? ==> (r.value == [] <==> !(on && relayState == 0) && !(off && relayState == 1))
    ensures r.Some? ==> forall w :: w in r.value ==> w != relayState && (w == 0 || w == 1)
  {
    if !(-2 <= relayState < 2) {
      return None;
    }
    var writes := [];
    if on && relayState == 0 {
      writes := writes + [1];
    }
    if off && relayState == 1 {
      writes := writes + [0];
    }
    assert [0][0] != [1][0];
    return Some(writes);
  }
}
