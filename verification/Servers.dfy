/** Chunk servers and the names the master gives them (src/core/master_server/master_server.h). */
module Servers {
  import opened Text
  import opened FileStore

  datatype ServerInfo = ServerInfo(addr: string, port: int)

  /** chunk_server_info::join. */
  function JoinServer(addr: string, port: int): string {
    addr + ":" + ToString(port)
  }

  function ServerUrl(s: ServerInfo): string {
    JoinServer(s.addr, s.port)
  }

  /** What is recorded of a server: its port is stored in 16 bits. */
  function PlaceFor(s: ServerInfo): Place {
    Place(s.addr, ToInt16(s.port))
  }

  function PlaceUrl(a: Place): string {
    JoinServer(a.addr, a.port)
  }

  lemma NumberFree(n: int)
    ensures Free(ToString(n), ':')
  {
    DecFree(if n < 0 then -n else n, ':');
  }

  /** Before the last colon stands the address, and behind it the port. */
  lemma JoinServerReads(addr: string, port: int)
    ensures var s := JoinServer(addr, port);
            |s| > |addr| && s[..|addr|] == addr && s[|addr|] == ':' && Stoi(s[|addr| + 1..]) == Some(port) &&
            Free(s[|addr| + 1..], ':')
  {
    var s := JoinServer(addr, port);
    assert s[..|addr|] == addr && s[|addr| + 1..] == ToString(port);
    NumberFree(port);
    StoiToString(port);
  }

  /** The joined address names one server, even when the address itself holds colons. */
  lemma JoinServerInjective(addr: string, port: int, addr': string, port': int)
    requires JoinServer(addr, port) == JoinServer(addr', port')
    ensures addr == addr' && port == port'
  {
    NumberFree(port);
    NumberFree(port');
    TailUnique(addr, ToString(port), addr', ToString(port'), ':');
    StoiToString(port);
    StoiToString(port');
  }

  /** The recorded place names exactly the server it was made from if and only if its port fits 16 bits. */
  lemma PlaceNamesServerIff(s: ServerInfo)
    ensures PlaceUrl(PlaceFor(s)) == ServerUrl(s) <==> -TWO_TO_15 <= s.port < TWO_TO_15
  {
    hide ToInt16, JoinServer;
    Int16Iff(s.port);
    if PlaceUrl(PlaceFor(s)) == ServerUrl(s) {
      JoinServerInjective(s.addr, ToInt16(s.port), s.addr, s.port);
    }
  }

  lemma Int16Iff(n: int)
    ensures ToInt16(n) == n <==> -TWO_TO_15 <= n < TWO_TO_15
  {
  }
}
