/** Picking the machine's own addresses from `os.networkInterfaces()`, written out the
    same way three times in the source (`getServerHost` in `routes/quiz.js`,
    `getLocalIPAddresses` in `attack_server/server.js` and `xss/server.js`). */
module NetInterfaces {
  import opened Wrappers
  import opened JsText

  datatype Iface = Iface(family: string, internal: bool, address: string)

  /** The interface lists in the order of the interface names. */
  type Interfaces = seq<seq<Iface>>

  predicate Eligible(i: Iface) {
    i.family == "IPv4" && !i.internal
  }

  predicate IsPreferred(address: string) {
    StartsWith(address, "192.168.")
  }

  function Flatten(ifs: Interfaces): seq<Iface> {
    if |ifs| == 0 then [] else ifs[0] + Flatten(ifs[1..])
  }

  /** Eligible, and preferred or not as asked. */
  predicate Qualifies(x: Iface, preferred: bool) {
    Eligible(x) && IsPreferred(x.address) == preferred
  }

  /** The addresses of the eligible interfaces, in order, that are (or are not)
      preferred. */
  function Select(list: seq<Iface>, preferred: bool): (r: seq<string>)
    ensures |r| <= |list|
    ensures forall a :: a in r <==> exists x :: x in list && Qualifies(x, preferred) && x.address == a
  {
    if |list| == 0 then []
    else
      assert list == [list[0]] + list[1..];
      (if Qualifies(list[0], preferred) then [list[0].address] else []) + Select(list[1..], preferred)
  }

  /** Selection keeps the interfaces' order: it distributes over concatenation. */
  lemma {:induction false} SelectAppend(a: seq<Iface>, b: seq<Iface>, preferred: bool)
    ensures Select(a + b, preferred) == Select(a, preferred) + Select(b, preferred)
  {
    if |a| > 0 {
      assert (a + b)[1..] == a[1..] + b;
      SelectAppend(a[1..], b, preferred);
    } else {
      assert a + b == b;
    }
  }

  /** Selection finds something whenever some interface qualifies. */
  lemma SelectNonEmpty(list: seq<Iface>, preferred: bool)
    ensures (exists x :: x in list && Qualifies(x, preferred)) <==> |Select(list, preferred)| > 0
  {
    var sel := Select(list, preferred);
    if |sel| > 0 {
      assert sel[0] in sel;
    }
    if exists x :: x in list && Qualifies(x, preferred) {
      var x :| x in list && Qualifies(x, preferred);
      assert x.address in Select(list, preferred);
    }
  }

  /** `getLocalIPAddresses`: the eligible "192.168." addresses if there are any, else the
      other eligible addresses. */
  function LocalIPAddresses(ifs: Interfaces): (r: seq<string>)
    ensures (exists x :: x in Flatten(ifs) && Qualifies(x, true)) ==> r == Select(Flatten(ifs), true) && |r| > 0
    ensures !(exists x :: x in Flatten(ifs) && Qualifies(x, true)) ==> r == Select(Flatten(ifs), false)
    ensures forall a :: a in r ==> exists x :: x in Flatten(ifs) && Eligible(x) && x.address == a
  {
    var flat := Flatten(ifs);
    var preferred := Select(flat, true);
    SelectNonEmpty(flat, true);
    if |preferred| > 0 then preferred else Select(flat, false)
  }

  /** `getServerHost`: the SERVER_HOST setting when it is set, else the first local
      address, else "localhost". */
  function ServerHost(serverHostEnv: Option<string>, ifs: Interfaces): (host: string)
    ensures Truthy(serverHostEnv) ==> host == serverHostEnv.value
    ensures !Truthy(serverHostEnv) && |LocalIPAddresses(ifs)| > 0 ==> host == LocalIPAddresses(ifs)[0]
    ensures !Truthy(serverHostEnv) && |LocalIPAddresses(ifs)| == 0 ==> host == "localhost"
  {
    if Truthy(serverHostEnv) then serverHostEnv.value
    else
      var ips := LocalIPAddresses(ifs);
      if |ips| > 0 then ips[0] else "localhost"
  }

  /** Without a setting, a "192.168." address wins over every other eligible address,
      whatever the interface order. */
  lemma PreferredWins(ifs: Interfaces, x: Iface)
    requires x in Flatten(ifs) && Eligible(x) && IsPreferred(x.address)
    ensures IsPreferred(ServerHost(None, ifs))
  {
    assert Qualifies(x, true);
    SelectNonEmpty(Flatten(ifs), true);
    var sel := Select(Flatten(ifs), true);
    assert sel[0] in sel;
  }
}
