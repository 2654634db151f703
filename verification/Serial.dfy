/** The list of configured serial ports and its one-entry lookup cache
    (`serial.c`). */
module Serial {
  class Port {
    var port: nat
    var baudrate: nat

    constructor (port: nat, baudrate: nat)
      ensures this.port == port && this.baudrate == baudrate
    {
      this.port, this.baudrate := port, baudrate;
    }
  }

  class Ports {
    var list: seq<Port>
    var cached: Port?

    /** Port numbers are unique, and the cache points into the list. */
    ghost predicate Valid()
      reads this, list
    {
      && (forall i, j :: 0 <= i < j < |list| ==> list[i].port != list[j].port)
      && (cached == null || cached in list)
    }

    /** The plain list walk: the record of `port`, or `null`. */
    ghost function Walk(port: nat): (r: Port?)
      reads this, list
      ensures r != null ==> r in list && r.port == port
      ensures r == null ==> forall p :: p in list ==> p.port != port
    {
      WalkFrom(list, port)
    }

    static ghost function WalkFrom(list: seq<Port>, port: nat): (r: Port?)
      reads list
      ensures r != null ==> r in list && r.port == port
      ensures r == null ==> forall p :: p in list ==> p.port != port
    {
      if |list| == 0 then null
      else if list[0].port == port then list[0] else WalkFrom(list[1..], port)
    }

    constructor ()
      ensures Valid() && list == [] && cached == null
    {
      list, cached := [], null;
    }

    /** With unique numbers, any record of the port is the one the walk finds. */
    lemma WalkUnique(p: Port)
      requires Valid() && p in list
      ensures Walk(p.port) == p
    {
    }

    /** `get_serial_slot`: position of the port's record, or of the end. */
    method Slot(port: nat) returns (i: nat)
      requires Valid()
      ensures i <= |list| && (i < |list| ==> list[i] == Walk(port))
      ensures i == |list| ==> Walk(port) == null
    {
      i := 0;
      while i < |list|
        invariant i <= |list| && forall k :: 0 <= k < i ==> list[k].port != port
      {
        if list[i].port == port {
          WalkUnique(list[i]);
          return;
        }
        i := i + 1;
      }
    }

    /** `upsert_serial_config`: one record per port, updated in place. */
    method Upsert(port: nat, baudrate: nat) returns (config: Port)
      requires Valid()
      modifies this`list, list
      ensures Valid() && config.port == port && config.baudrate == baudrate && config in list
      ensures if old(Walk(port)) != null then list == old(list) && config == old(Walk(port))
              else fresh(config) && list == old(list) + [config]
      ensures forall p :: p in old(list) ==> p.port == old(p.port) && (p != config ==> p.baudrate == old(p.baudrate))
    {
      var i := Slot(port);
      if i == |list| {
        config := new Port(port, baudrate);
        list := list + [config];
      } else {
        config := list[i];
      }
      config.port := port;
      config.baudrate := baudrate;
    }

    /** `serial_get_port`: the cache never changes the answer. */
    method GetPort(port: nat) returns (result: Port?)
      requires Valid()
      modifies this`cached
      ensures Valid() && result == Walk(port)
      ensures result != null ==> cached == result
    {
      if cached != null && cached.port == port {
        WalkUnique(cached);
        return cached;
      }
      var i := Slot(port);
      result := if i < |list| then list[i] else null;
      if result != null {
        cached := result;
      }
    }
  }
}
