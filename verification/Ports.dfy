/** The ports of the virtual machines: getport and BuildFactory of buildbot/maria-master.cfg, and the pid
    file that buildbot/runvm keys on the port. */
module Ports {
  import opened Decimal
  import opened Wrappers

  const FIRST_PORT := 2222

  datatype Call = BuildFactory | GetPort

  /** getport.port and getport.inc; the latter does not exist before the first BuildFactory. */
  datatype State = State(port: nat, inc: Option<nat>)

  /** The attributes after the first n calls, none of which failed. */
  function After(calls: seq<Call>, n: nat): State
    requires n <= |calls|
  {
    if n == 0 then State(FIRST_PORT, None)
    else
      var s := After(calls, n - 1);
      if calls[n - 1].BuildFactory? then State(s.port, Some(1))
      else State(s.port + (if s.inc.Some? then s.inc.value else 0), Some(0))
  }

  class Allocator {
    var port: nat
    var inc: Option<nat>
    ghost var calls: seq<Call>

    ghost predicate Valid()
      reads this
    {
      State(port, inc) == After(calls, |calls|) && (inc.None? <==> calls == []) && (calls != [] ==> calls[0].BuildFactory?)
    }

    constructor ()
      ensures Valid() && calls == []
    {
      port, inc, calls := FIRST_PORT, None, [];
    }

    /** An attribute error, with nothing changed, when no BuildFactory came before. */
    method Getport() returns (r: Option<string>)
      requires Valid()
      modifies this
      ensures Valid()
      ensures if old(calls) == [] then r == None && calls == []
              else calls == old(calls) + [GetPort] && r == Some(Dec(PortOf(calls, |calls| - 1)))
    {
      if inc.None? {
        return None;
      }
      port := port + inc.value;
      inc := Some(0);
      calls := calls + [GetPort];
      AfterPrefix(old(calls), calls, |old(calls)|);
      r := Some(Dec(port));
    }

    method NewFactory()
      requires Valid()
      modifies this
      ensures Valid() && calls == old(calls) + [BuildFactory]
    {
      inc := Some(1);
      calls := calls + [BuildFactory];
      AfterPrefix(old(calls), calls, |old(calls)|);
    }
  }

  lemma {:induction false} AfterPrefix(a: seq<Call>, b: seq<Call>, n: nat)
    requires n <= |a| <= |b| && a == b[..|a|]
    ensures After(a, n) == After(b, n)
  {
    if n > 0 {
      AfterPrefix(a, b, n - 1);
    }
  }

  /** What call k, a getport, returns. */
  function PortOf(calls: seq<Call>, k: nat): nat
    requires k < |calls| && calls[k].GetPort?
  {
    After(calls, k + 1).port
  }

  /** The port that is in use or is going to be. */
  function Due(calls: seq<Call>, n: nat): nat
    requires n <= |calls|
  {
    var s := After(calls, n);
    s.port + if s.inc.Some? then s.inc.value else 0
  }

  /** Calls leave the port alone or raise it by one, and only a BuildFactory makes a new port due. */
  lemma {:induction false} PortsGrow(calls: seq<Call>, m: nat, n: nat)
    requires m <= n <= |calls|
    ensures After(calls, m).port <= After(calls, n).port && Due(calls, m) <= Due(calls, n)
    ensures After(calls, n).inc.Some? ==> After(calls, n).inc.value <= 1
    ensures (forall f :: m <= f < n ==> calls[f].GetPort?) ==> Due(calls, m) == Due(calls, n)
    decreases n
  {
    if n > 0 {
      PortsGrow(calls, if m < n then m else n - 1, n - 1);
    }
  }

  /** Two getports return the same port exactly when no BuildFactory is called between them; otherwise the
      later one returns a greater port. */
  lemma SamePortIff(calls: seq<Call>, i: nat, k: nat)
    requires i < k < |calls| && calls[0].BuildFactory? && calls[i].GetPort? && calls[k].GetPort?
    ensures PortOf(calls, i) == PortOf(calls, k) <==> forall f :: i < f < k ==> calls[f].GetPort?
    ensures PortOf(calls, i) <= PortOf(calls, k)
  {
    PortsGrow(calls, i + 1, k);
    PortsGrow(calls, i + 1, k + 1);
    if f :| i < f < k && calls[f].BuildFactory? {
      PortsGrow(calls, i + 1, f);
      PortsGrow(calls, f + 1, k);
    }
  }

  /** How many of the first n calls are a getport directly after a BuildFactory. */
  function Fresh(calls: seq<Call>, n: nat): nat
    requires n <= |calls|
  {
    if n < 2 then 0 else Fresh(calls, n - 1) + if calls[n - 1].GetPort? && calls[n - 2].BuildFactory? then 1 else 0
  }

  /** The ports are handed out one after the other from 2223 on: a getport directly after a BuildFactory takes
      the next one. */
  lemma {:induction false} PortsAreConsecutive(calls: seq<Call>, n: nat)
    requires n <= |calls| && calls != [] && calls[0].BuildFactory?
    ensures After(calls, n).port == 2222 + Fresh(calls, n)
    ensures n > 0 ==> After(calls, n).inc == Some(if calls[n - 1].BuildFactory? then 1 else 0)
  {
    if n > 0 {
      PortsAreConsecutive(calls, n - 1);
    }
  }

  /** $ENV{HOME} . "/.runvm", then "kvm_$opt_port.pid", with no slash between them. */
  function PidFile(home: string, port: string): string
  {
    home + "/.runvm" + "kvm_" + port + ".pid"
  }

  /** So virtual machines of different factories never share a pid file, and those of one factory do. */
  lemma PidFilesAreKeyedByFactory(calls: seq<Call>, i: nat, k: nat, home: string)
    requires i < k < |calls| && calls[0].BuildFactory? && calls[i].GetPort? && calls[k].GetPort?
    ensures PidFile(home, Dec(PortOf(calls, i))) == PidFile(home, Dec(PortOf(calls, k)))
            <==> forall f :: i < f < k ==> calls[f].GetPort?
  {
    SamePortIff(calls, i, k);
    var p, q := PortOf(calls, i), PortOf(calls, k);
    if PidFile(home, Dec(p)) == PidFile(home, Dec(q)) {
      var n := |home + "/.runvm" + "kvm_"|;
      var a, b := PidFile(home, Dec(p)), PidFile(home, Dec(q));
      assert Dec(p) == a[n..|a| - 4] && Dec(q) == b[n..|b| - 4];
      ParseDec(p);
      ParseDec(q);
    }
  }
}
