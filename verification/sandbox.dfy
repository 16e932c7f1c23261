/** The sandbox launcher (`server-sad.js`): the container's instance id, the socket
    namespace path built from it, the id read back from a namespace name, and the
    replies of `/start-sad`. The random bytes and the launch's exit code are inputs. */
module Sandbox {
  import opened Wrappers
  import opened JsText

  type Byte = b: int | 0 <= b < 256

  const HexDigits: string := "0123456789abcdef"

  predicate IsLowerHex(c: char) {
    ('0' <= c <= '9') || ('a' <= c <= 'f')
  }

  /** `Buffer.toString("hex")`: two lower-case digits per byte, high nibble first. */
  function Hex(bytes: seq<Byte>): (r: string)
    ensures |r| == 2 * |bytes|
    ensures forall i :: 0 <= i < |r| ==> IsLowerHex(r[i])
  {
    if |bytes| == 0 then ""
    else [HexDigits[bytes[0] / 16], HexDigits[bytes[0] % 16]] + Hex(bytes[1..])
  }

  function HexValue(c: char): (v: nat)
    requires IsLowerHex(c)
    ensures v < 16 && HexDigits[v] == c
  {
    if c <= '9' then c as int - '0' as int else c as int - 'a' as int + 10
  }

  /** Reads pairs of hex digits back into bytes. */
  function Unhex(s: string): (bytes: seq<Byte>)
    requires |s| % 2 == 0
    requires forall i :: 0 <= i < |s| ==> IsLowerHex(s[i])
    ensures |bytes| == |s| / 2
  {
    if |s| == 0 then []
    else [HexValue(s[0]) * 16 + HexValue(s[1])] + Unhex(s[2..])
  }

  lemma HexDigitValue(d: nat)
    requires d < 16
    ensures HexValue(HexDigits[d]) == d
  {
  }

  lemma {:induction false} UnhexHex(bytes: seq<Byte>)
    ensures Unhex(Hex(bytes)) == bytes
  {
    if |bytes| > 0 {
      var h := Hex(bytes);
      HexDigitValue(bytes[0] / 16);
      HexDigitValue(bytes[0] % 16);
      assert h[2..] == Hex(bytes[1..]);
      UnhexHex(bytes[1..]);
    }
  }

  lemma {:induction false} HexUnhex(s: string)
    requires |s| % 2 == 0
    requires forall i :: 0 <= i < |s| ==> IsLowerHex(s[i])
    ensures Hex(Unhex(s)) == s
  {
    if |s| > 0 {
      var b := Unhex(s);
      var hi := HexValue(s[0]);
      var lo := HexValue(s[1]);
      assert b[0] == hi * 16 + lo;
      assert b[0] / 16 == hi && b[0] % 16 == lo;
      assert b[1..] == Unhex(s[2..]);
      HexUnhex(s[2..]);
      assert s == [s[0], s[1]] + s[2..];
    }
  }

  const IdPrefix: string := "sad_"

  /** The language of `^sad_[a-f0-9]{8}$`. */
  predicate IsInstanceId(s: string) {
    |s| == 12 && s[..4] == IdPrefix && forall i :: 4 <= i < 12 ==> IsLowerHex(s[i])
  }

  /** `"sad_" + randomBytes(4).toString("hex")`. */
  function InstanceId(bytes: seq<Byte>): (id: string)
    requires |bytes| == 4
    ensures IsInstanceId(id)
  {
    var id := IdPrefix + Hex(bytes);
    assert id[..4] == IdPrefix;
    id
  }

  /** Different random bytes give different ids, and every string of the id pattern is
      the id of some bytes. */
  lemma InstanceIdIsBijective(b1: seq<Byte>, b2: seq<Byte>, s: string)
    requires |b1| == 4 && |b2| == 4
    requires IsInstanceId(s)
    ensures InstanceId(b1) == InstanceId(b2) <==> b1 == b2
    ensures |Unhex(s[4..])| == 4 && InstanceId(Unhex(s[4..])) == s
  {
    if InstanceId(b1) == InstanceId(b2) {
      HexOfInstanceId(b1);
      HexOfInstanceId(b2);
      UnhexHex(b1);
      UnhexHex(b2);
    }
    InstanceIdOfDigits(s);
  }

  lemma HexOfInstanceId(bytes: seq<Byte>)
    requires |bytes| == 4
    ensures InstanceId(bytes)[4..] == Hex(bytes)
  {
    assert (IdPrefix + Hex(bytes))[4..] == Hex(bytes);
  }

  lemma InstanceIdOfDigits(s: string)
    requires IsInstanceId(s)
    ensures |Unhex(s[4..])| == 4 && InstanceId(Unhex(s[4..])) == s
  {
    var digits := s[4..];
    assert forall i :: 0 <= i < |digits| ==> digits[i] == s[i + 4];
    HexUnhex(digits);
    assert s == s[..4] + digits;
  }

  /** `/ws/${instanceId}` */
  function WsPath(id: string): (p: string)
    ensures |p| == |id| + 4 && p[4..] == id
  {
    "/ws/" + id
  }

  /** The namespaces `/^\/ws\/.+$/` accepts: "/ws/" and at least one character that is
      not a line terminator. */
  predicate IsSocketNamespace(name: string) {
    |name| > 4 && name[..4] == "/ws/" && forall i :: 4 <= i < |name| ==> !IsLineTerminator(name[i])
  }

  /** `namespace.name.split("/").pop()` */
  function IdFromNamespace(name: string): (id: string)
    ensures '/' !in id
  {
    var parts := Split(name, '/');
    parts[|parts| - 1]
  }

  /** The last segment of "/ws/" + id is the id when it holds no '/'. */
  lemma IdFromWsPathOf(id: string)
    requires '/' !in id
    ensures IdFromNamespace(WsPath(id)) == id
  {
    var parts := ["", "ws", id];
    assert parts[1..] == ["ws", id] && parts[1..][1..] == [id];
    assert Join(["ws", id], '/') == "ws/" + id;
    assert WsPath(id) == Join(parts, '/');
    SplitJoin(parts, '/');
  }

  lemma InstanceIdHasNoSlash(id: string)
    requires IsInstanceId(id)
    ensures '/' !in id && forall i :: 0 <= i < |id| ==> !IsLineTerminator(id[i])
  {
    forall i | 0 <= i < |id| ensures id[i] != '/' && !IsLineTerminator(id[i]) {
      if i < 4 {
        assert id[i] == IdPrefix[i];
      }
    }
  }

  /** The socket handler recovers exactly the id `/start-sad` returned. */
  lemma IdFromWsPath(bytes: seq<Byte>)
    requires |bytes| == 4
    ensures IsSocketNamespace(WsPath(InstanceId(bytes)))
    ensures IdFromNamespace(WsPath(InstanceId(bytes))) == InstanceId(bytes)
  {
    var id := InstanceId(bytes);
    InstanceIdHasNoSlash(id);
    IdFromWsPathOf(id);
  }

  const AutoStopMs: int := 30 * 60 * 1000

  /** The JSON reply of `/start-sad`. */
  datatype StartReply =
    | SocketMissing                                  // 500 before any launch
    | LaunchFailed                                   // 500 after `docker run` exits non-zero
    | Started(instanceId: string, wsPath: string)

  /** A `docker stop` of `container` scheduled with `setTimeout` after `afterMs`. */
  datatype Stop = Stop(container: string, afterMs: int)

  /** What the handler does: its reply, and the stop it schedules, if any. */
  datatype StartResult = StartResult(reply: StartReply, stop: Option<Stop>)

  function Status(r: StartReply): int {
    if r.Started? then 200 else 500
  }

  /** The container `/start-sad` launches, if any. */
  function Launched(socketReady: bool, bytes: seq<Byte>): (name: Option<string>)
    requires |bytes| == 4
    ensures name.Some? <==> socketReady
  {
    if socketReady then Some(InstanceId(bytes)) else None
  }

  /** `POST /start-sad`: no socket layer gives 500 without launching; otherwise the
      container is started and only an exit code of 0 (`None` is a null code from a
      signal) replies with the id and its path, and schedules the container's stop
      after the auto-stop delay. */
  function StartSad(socketReady: bool, bytes: seq<Byte>, exitCode: Option<int>): (r: StartResult)
    requires |bytes| == 4
    ensures r.reply == SocketMissing <==> !socketReady
    ensures r.reply == LaunchFailed <==> socketReady && exitCode != Some(0)
    ensures Status(r.reply) == 200 <==> socketReady && exitCode == Some(0)
    ensures r.reply.Started? ==>
      && Launched(socketReady, bytes) == Some(r.reply.instanceId)
      && IsInstanceId(r.reply.instanceId)
      && r.reply.wsPath == WsPath(r.reply.instanceId)
    ensures r.stop.Some? <==> r.reply.Started?
    ensures r.stop.Some? ==> r.stop.value == Stop(r.reply.instanceId, 1800000)
  {
    if !socketReady then StartResult(SocketMissing, None)
    else if exitCode != Some(0) then StartResult(LaunchFailed, None)
    else
      var id := InstanceId(bytes);
      StartResult(Started(id, WsPath(id)), Some(Stop(id, AutoStopMs)))
  }
}
