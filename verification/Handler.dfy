/**
 The handler's configuration and clients (web/handler.go), as the object whose
 fields ApplyConfig replaces. Process has the locks around it.
 */
module Handler {
  import opened Wrappers
  import opened CarbonClient
  import Process

  class Handler {
    const network: Network
    var cfg: Process.Config
    var writers: seq<Client>
    var readers: seq<Client>

    predicate Valid()
      reads this
    {
      && (forall c | c in writers :: c.network == network)
      && (forall c | c in readers :: c.network == network)
    }

    /** There is one client, newly built for this configuration, or none for an empty one. */
    predicate BuiltFor(cfg: Process.Config)
      reads this, writers
    {
      && this.cfg == cfg && readers == writers
      && if Process.HasClient(cfg) then
           && |writers| == 1
           && writers[0].network == network
           && writers[0].carbonAddress == cfg.carbonAddress
           && writers[0].carbonReconnectInterval == cfg.reconnectInterval
           && LinkOf(writers[0]) == Process.NEW_LINK
         else writers == []
    }

    static function LinkOf(c: Client): Link
      reads c
    {
      Link(c.carbonCon, c.carbonLastReconnectTime)
    }

    /** The handler, its client and the network are as in this state of the process. */
    ghost predicate Mirrors(s: Process.State)
      reads this, writers, network
    {
      && Valid() && readers == writers && s.cfg == cfg
      && s.world.net == Net(network.dialled, network.open, network.wire)
      && |s.built| == |s.world.links|
      && match s.current
         case None => writers == []
         case Some(g) =>
           && |writers| == 1 && g < |s.built|
           && LinkOf(writers[0]) == s.world.links[g]
           && writers[0].carbonAddress == s.built[g].cfg.carbonAddress
           && writers[0].carbonReconnectInterval == s.built[g].cfg.reconnectInterval
    }

    constructor (network: Network, cfg: Process.Config)
      ensures this.network == network && BuiltFor(cfg) && Valid()
      ensures forall c | c in writers :: fresh(c)
      ensures network.dialled == [] && network.open == {} && network.wire == [] ==> Mirrors(Process.Init(cfg))
    {
      this.network, this.cfg := network, cfg;
      writers, readers := [], [];
      new;
      BuildClients();
    }

    method BuildClients()
      modifies `writers, `readers
      ensures BuiltFor(cfg) && Valid()
      ensures forall c | c in writers :: fresh(c)
    {
      writers, readers := [], [];
      if Process.HasClient(cfg) {
        var c := new Client(cfg.carbonAddress, cfg.reconnectInterval, network);
        writers := writers + [c];
        readers := readers + [c];
      }
    }

    static method ShutdownAll(clients: seq<Client>, network: Network)
      requires forall c | c in clients :: c.network == network
      modifies clients, network
      ensures forall c | c in clients :: c.carbonCon.None?
      ensures forall c | c in clients :: c.carbonLastReconnectTime == old(c.carbonLastReconnectTime)
      ensures network.open <= old(network.open)
      ensures forall k | k in old(network.open) && k !in network.open ::
                exists c | c in clients :: old(c.carbonCon) == Some(k)
      ensures forall c | c in clients && old(c.carbonCon).Some? :: old(c.carbonCon).value !in network.open
      ensures network.dialled == old(network.dialled) && network.wire == old(network.wire)
    {
      for i := 0 to |clients|
        invariant forall j | 0 <= j < i :: clients[j].carbonCon.None?
        invariant forall c | c in clients :: c.carbonCon in {None, old(c.carbonCon)}
        invariant forall c | c in clients :: c.carbonLastReconnectTime == old(c.carbonLastReconnectTime)
        invariant network.open <= old(network.open)
        invariant forall k | k in old(network.open) && k !in network.open ::
                    exists c | c in clients :: old(c.carbonCon) == Some(k)
        invariant forall c | c in clients && old(c.carbonCon).Some? ::
                    c.carbonCon.Some? || old(c.carbonCon).value !in network.open
        invariant network.dialled == old(network.dialled) && network.wire == old(network.wire)
      {
        clients[i].Shutdown();
      }
    }

    /** The two loops over the old clients: exactly their connections are closed. */
    method ShutdownClients(ghost s: Process.State)
      requires Valid()
      modifies network, writers, readers
      ensures forall c | c in writers + readers :: c.carbonCon.None?
      ensures network.open <= old(network.open)
      ensures forall k | k in old(network.open) ::
                k !in network.open <==> exists c | c in writers + readers :: old(c.carbonCon) == Some(k)
      ensures network.dialled == old(network.dialled) && network.wire == old(network.wire)
      ensures old(Mirrors(s)) && Process.CanShut(s) ==> Mirrors(Process.Shutdown(Process.Shutdown(s)))
    {
      ghost var open := network.open;
      ShutdownAll(writers, network);
      assert |writers| == 1 && writers[0].network == network ==>
          network.open == match old(writers[0].carbonCon) case None => open case Some(k) => open - {k};
      ShutdownAll(readers, network);
    }

    /**
     The old clients are shut before the new one is built; their connections are closed,
     no other. From a state of the process this is what the loop's steps make of it.
     */
    method ApplyConfig(cfg: Process.Config, ghost s: Process.State)
      requires Valid()
      modifies this, network, writers, readers
      ensures BuiltFor(cfg) && Valid()
      ensures forall c | c in writers :: fresh(c)
      ensures forall c | c in old(writers + readers) :: c.carbonCon.None?
      ensures network.open <= old(network.open)
      ensures forall k | k in old(network.open) ::
                k !in network.open <==> exists c | c in old(writers + readers) :: old(c.carbonCon) == Some(k)
      ensures network.dialled == old(network.dialled) && network.wire == old(network.wire)
      ensures old(Mirrors(s)) && Process.CanShut(s) ==>
                Mirrors(Process.Rebuilt(Process.Shutdown(Process.Shutdown(s)), cfg))
    {
      ShutdownClients(s);
      this.cfg := cfg;
      BuildClients();
    }
  }
}
