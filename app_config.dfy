/**
 * The persisted application settings of `src/config/app.rs`: a table of
 * named device addresses, kept in key order, and the default port of the
 * debug socket.
 */
module AppConfig {
  import opened Wrappers
  import opened Bytes
  import Order

  /** Rust's `u16`. */
  newtype u16 = x: int | 0 <= x < 0x1_0000

  /** `std::net::Ipv4Addr`: four octets. */
  datatype Ipv4 = Ipv4(a: byte, b: byte, c: byte, d: byte)

  const DEFAULT_PORT: u16 := 8000

  datatype SocketConfig = SocketConfig(defaultPort: u16)

  /** What `add` reports: whether the name was new or already present. */
  datatype Change = Added | Updated

  /** `add`: rejected for an empty name, or stored (and then saved, or not). */
  datatype AddOutcome = EmptyName | Stored(change: Change, saved: bool)

  /** `remove`: nothing to do for an absent name, or removed (and then saved, or not). */
  datatype RemoveOutcome = Absent | Removed(saved: bool)

  /** What `load` finds at the configuration path. */
  datatype StoredFile = NoFile | Unreadable(reason: string) | Parsed(connections: map<string, Ipv4>, port: u16)

  class Config {
    var connections: map<string, Ipv4>
    var socket: SocketConfig

    /** `Config::default()`: no connections, port 8000. */
    constructor Default()
      ensures connections == map[] && socket.defaultPort == 8000
    {
      connections := map[];
      socket := SocketConfig(DEFAULT_PORT);
    }

    /** A configuration as `load` parsed it. */
    constructor FromParts(connections: map<string, Ipv4>, port: u16)
      ensures this.connections == connections && socket.defaultPort == port
    {
      this.connections := connections;
      socket := SocketConfig(port);
    }

    /**
     * `add`: an empty name is refused and nothing changes; otherwise the
     * address is stored under the name, replacing any earlier one, the
     * change is reported as "added" when the name was absent and as
     * "updated" when it was present, and the file is saved (`saveOk` is
     * whether saving succeeded; the table is changed either way).
     */
    method Add(name: string, address: Ipv4, saveOk: bool) returns (r: AddOutcome)
      modifies this
      ensures socket == old(socket)
      ensures name == "" ==> r == EmptyName && connections == old(connections)
      ensures name != "" ==> connections == old(connections)[name := address]
      ensures name != "" ==> r == Stored(if name in old(connections) then Updated else Added, saveOk)
    {
      if name == "" {
        return EmptyName;
      }
      var previous := Get(name);
      connections := connections[name := address];
      r := Stored(if previous.Some? then Updated else Added, saveOk);
    }

    /** `get`: the address stored under `name`, if any. */
    function Get(name: string): (r: Option<Ipv4>)
      reads this
      ensures r.Some? <==> name in connections
      ensures r.Some? ==> r.value == connections[name]
    {
      if name in connections then Some(connections[name]) else None
    }

    /** `get_port`: the stored default port. */
    function GetPort(): (p: u16)
      reads this
      ensures p == socket.defaultPort
    {
      socket.defaultPort
    }

    /**
     * `remove`: the name is gone afterwards and every other entry is kept;
     * only a removal that happened is reported and saved.
     */
    method Remove(name: string, saveOk: bool) returns (r: RemoveOutcome)
      modifies this
      ensures socket == old(socket)
      ensures connections == old(connections) - {name}
      ensures r == if name in old(connections) then Removed(saveOk) else Absent
    {
      if name in connections {
        connections := connections - {name};
        return Removed(saveOk);
      }
      return Absent;
    }

    /**
     * `list`: the rows printed under the header, one per connection, in
     * ascending order of name, as a `BTreeMap` walks its keys.
     */
    method List() returns (rows: seq<(string, Ipv4)>)
      ensures forall i, j :: 0 <= i < j < |rows| ==> Order.StrLt()(rows[i].0, rows[j].0)
      ensures forall i :: 0 <= i < |rows| ==> rows[i].0 in connections && connections[rows[i].0] == rows[i].1
      ensures forall name :: name in connections ==> exists i :: 0 <= i < |rows| && rows[i].0 == name
    {
      var gathered: seq<string> := [];
      var rest := connections.Keys;
      while rest != {}
        invariant rest <= connections.Keys
        invariant forall k :: k in connections ==> k in rest || k in gathered
        invariant forall k :: k in gathered ==> k in connections
        decreases rest
      {
        var k :| k in rest;
        gathered := gathered + [k];
        rest := rest - {k};
      }
      Order.StrLtStrictTotalOrder();
      var sorted := Order.Sort(gathered, Order.StrLt());
      var keys := Order.Dedup(sorted, Order.StrLt());
      forall k ensures k in keys <==> k in connections {
        calc <==> {
          k in keys;
          k in Order.Elems(keys);
          k in Order.Elems(sorted);
          k in multiset(sorted);
          k in multiset(gathered);
          k in connections;
        }
      }
      assert forall i :: 0 <= i < |keys| ==> keys[i] in connections;
      rows := [];
      for i := 0 to |keys|
        invariant |rows| == i
        invariant forall j :: 0 <= j < i ==> rows[j] == (keys[j], connections[keys[j]])
      {
        rows := rows + [(keys[i], connections[keys[i]])];
      }
    }
  }

  /**
   * `load`: a missing file gives the default configuration; an unreadable
   * one is an error; otherwise the parsed contents.
   */
  method Load(file: StoredFile) returns (r: Result<Config, string>)
    ensures file.NoFile? ==> r.Ok? && fresh(r.value) && r.value.connections == map[] && r.value.GetPort() == 8000
    ensures file.Unreadable? ==> r == Err(file.reason)
    ensures file.Parsed? ==> r.Ok? && fresh(r.value) && r.value.connections == file.connections && r.value.GetPort() == file.port
  {
    if file.Unreadable? {
      return Err(file.reason);
    }
    var c;
    if file.NoFile? {
      c := new Config.Default();
    } else {
      c := new Config.FromParts(file.connections, file.port);
    }
    return Ok(c);
  }
}
