/**
 * The older `palworld_rcon` crate. Its roster parser and save check are the
 * same code as in palworld_server, so `ServerRcon.GetPlayerInfo` and
 * `ServerRcon.SaveSucceeded` model them too; what differs is the constructor,
 * which defaults the port, and `broadcast`, which takes a flag instead of a
 * replacement string.
 */
module LegacyRcon {
  import opened Wrappers
  import opened Ints
  import opened Text
  import ServerRcon

  /** `PalworldRCON::new`: host and password kept as given, the port defaulting
      to the Source RCON port when none is given. */
  function New(host: string, port: Option<u16>, password: string): (r: ServerRcon.PalworldRcon)
    ensures r.host == host && r.password == password
    ensures port.None? ==> r.port == ServerRcon.DEFAULT_SOURCE_PORT
    ensures port.Some? ==> r == ServerRcon.New(host, port.value, password)
  {
    ServerRcon.PalworldRcon(host, port.UnwrapOr(ServerRcon.DEFAULT_SOURCE_PORT), password)
  }

  /** `broadcast(message, replace_space)`: with the flag every space becomes `_`,
      without it the message is sent unchanged. */
  function BroadcastCommand(message: string, replaceSpace: bool): (cmd: string)
    ensures |cmd| >= 10 && cmd[..10] == ServerRcon.BROADCAST_PREFIX
    ensures replaceSpace ==> |cmd| == 10 + |message| && ' ' !in cmd[10..]
    ensures replaceSpace ==> forall k :: 0 <= k < |message| ==> cmd[10 + k] == Underscored(message[k])
    ensures !replaceSpace ==> cmd[10..] == message
    ensures cmd == ServerRcon.BroadcastCommand(message, if replaceSpace then Some("_") else None)
  {
    var body := if replaceSpace then ReplaceChar(message, ' ', "_") else message;
    assert replaceSpace ==> ' ' !in body by {
      ReplaceRemovesAll(message, ' ', "_");
    }
    assert replaceSpace ==> |body| == |message| && forall k :: 0 <= k < |message| ==> body[k] == Underscored(message[k]) by {
      UnderscoreByPosition(message);
    }
    var cmd := ServerRcon.BROADCAST_PREFIX + body;
    assert cmd[10..] == body;
    cmd
  }

  /** A character as the flagged rewrite leaves it. */
  function Underscored(c: char): char {
    if c == ' ' then '_' else c
  }

  /** Replacing each space by one underscore rewrites the message character by
      character: same length, spaces become `_`, everything else stays put. */
  lemma {:induction false} UnderscoreByPosition(message: string)
    ensures |ReplaceChar(message, ' ', "_")| == |message|
    ensures forall k :: 0 <= k < |message| ==> ReplaceChar(message, ' ', "_")[k] == Underscored(message[k])
    decreases |message|
  {
    if message != [] {
      UnderscoreByPosition(message[1..]);
      var rest := ReplaceChar(message[1..], ' ', "_");
      assert ReplaceChar(message, ' ', "_") == [Underscored(message[0])] + rest;
      forall k | 0 <= k < |message| ensures ([Underscored(message[0])] + rest)[k] == Underscored(message[k]) {
        if k > 0 {
          assert message[k] == message[1..][k - 1];
        }
      }
    }
  }
}
