/**
 * The server's table of client sockets: a fixed array of 30 descriptors in which
 * 0 marks a free slot.  A connection that completes its handshake is put into
 * the lowest free slot; a connection whose read returns no bytes has its slot
 * zeroed; before each readiness wait the server collects the descriptors to
 * watch and the highest descriptor number.
 */
module Slots {
  import opened Options

  const MaxClients: nat := 30

  /** The lowest index holding 0, if any. */
  function FirstFree(s: seq<int>): (r: Option<nat>)
    ensures r.None? <==> forall i :: 0 <= i < |s| ==> s[i] != 0
    ensures r.Some? ==> r.value < |s| && s[r.value] == 0 && forall j :: 0 <= j < r.value ==> s[j] != 0
  {
    if s == [] then None
    else if s[0] == 0 then Some(0)
    else match FirstFree(s[1..])
      case None => None
      case Some(i) => Some(i + 1)
  }

  class ClientTable {
    const slots: array<int>

    /** Every slot starts at 0, so no client descriptor is watched. */
    constructor ()
      ensures slots.Length == MaxClients && fresh(slots)
      ensures forall i :: 0 <= i < slots.Length ==> slots[i] == 0
    {
      var a := new int[MaxClients];
      var i := 0;
      while i < MaxClients
        invariant 0 <= i <= MaxClients
        invariant forall j :: 0 <= j < i ==> a[j] == 0
      {
        a[i] := 0;
        i := i + 1;
      }
      slots := a;
    }

    /**
     * Store a newly connected descriptor in the lowest free slot.  When no slot
     * is free the table is left unchanged and the descriptor is not recorded.
     */
    method Insert(fd: int) returns (placed: Option<nat>)
      modifies slots
      ensures placed == FirstFree(old(slots[..]))
      ensures placed.Some? ==> slots[..] == old(slots[..])[placed.value := fd]
      ensures placed.None? ==> slots[..] == old(slots[..])
    {
      placed := None;
      var i := 0;
      while i < slots.Length
        invariant 0 <= i <= slots.Length
        invariant slots[..] == old(slots[..])
        invariant forall j :: 0 <= j < i ==> slots[j] != 0
      {
        if slots[i] == 0 {
          slots[i] := fd;
          placed := Some(i);
          assert FirstFree(old(slots[..])) == Some(i);
          return;
        }
        i := i + 1;
      }
    }

    /** A zero-length read on the connection in slot i: close it and mark the slot free. */
    method Release(i: nat)
      requires i < slots.Length
      modifies slots
      ensures slots[..] == old(slots[..])[i := 0]
    {
      slots[i] := 0;
    }

    /**
     * The readiness scan: the listening descriptor plus every positive slot is
     * watched, and maxSd is the largest of the listening descriptor and all slots.
     */
    method WatchSet(master: int) returns (watched: set<int>, maxSd: int)
      ensures watched == {master} + set i | 0 <= i < slots.Length && slots[i] > 0 :: slots[i]
      ensures maxSd >= master && forall i :: 0 <= i < slots.Length ==> slots[i] <= maxSd
      ensures maxSd == master || exists i :: 0 <= i < slots.Length && slots[i] == maxSd
    {
      watched := {master};
      maxSd := master;
      var i := 0;
      while i < slots.Length
        invariant 0 <= i <= slots.Length
        invariant watched == {master} + set j | 0 <= j < i && slots[j] > 0 :: slots[j]
        invariant maxSd >= master && forall j :: 0 <= j < i ==> slots[j] <= maxSd
        invariant maxSd == master || exists j :: 0 <= j < i && slots[j] == maxSd
      {
        var sd := slots[i];
        if sd > 0 {
          watched := watched + {sd};
        }
        if sd > maxSd {
          maxSd := sd;
        }
        i := i + 1;
      }
    }
  }
}
