/**
 * The state of one polling round: the configuration dictionary, whose `nb_sub`
 * entries `ciscoTotalSub` fills in, and the module-level lists and set the
 * collectors and `main` append to. Router replies are inputs.
 */
module Collect {
  import opened Results
  import opened PyStr
  import opened Subscribers
  import opened Classify
  import opened Redback
  import opened Cisco
  import opened Reconcile

  /**
   * What one router answers during a round: the walked tags and payloads (Redback),
   * the walked subscriber count and the successive `getnext` replies (Cisco).
   */
  datatype Answers = Answers(tags: seq<string>, payloads: seq<string>, countWalk: seq<string>, next: nat -> CiscoReply)

  /** One entry of the configuration's `hosts`, with what the router at it answers. */
  datatype Host = Host(name: string, brand: string, answers: Answers)

  /** The configuration dictionary `data`. */
  class Config {
    const types: seq<TypeEntry>
    const hosts: seq<Host>
    var nbSub: map<string, int>

    constructor (types: seq<TypeEntry>, hosts: seq<Host>)
      ensures this.types == types && this.hosts == hosts && nbSub == map[]
    {
      this.types := types;
      this.hosts := hosts;
      nbSub := map[];
    }

    /** `ciscoTotalSub`: stores the walked count (or zero) as the host's `nb_sub`. */
    method CiscoTotalSub(name: string, walk: seq<string>) returns (fault: Option<Fault>)
      modifies this`nbSub
      ensures SubCount(walk).Ok? ==> fault.None? && nbSub == old(nbSub)[name := SubCount(walk).value]
      ensures SubCount(walk).Err? ==> fault == Some(SubCount(walk).fault) && nbSub == old(nbSub)
    {
      if |walk| > 0 {
        var n := ParseInt(walk[0]);
        if n.None? {
          return Some(ValueError);
        }
        nbSub := nbSub[name := n.value];
      } else {
        nbSub := nbSub[name := 0];
      }
      return None;
    }
  }

  /**
   * What one host contributes to the round, whatever came before it: the rows it
   * yields, the subscriber count read from a Cisco host, and the fault that ends the
   * round. A Redback host is walked, a Cisco host counted and then queried, a host of
   * another brand skipped.
   */
  datatype Outcome = Outcome(records: seq<Login>, count: Option<int>, fault: Option<Fault>)

  function HostOutcome(types: seq<TypeEntry>, h: Host, now: int): (o: Outcome)
    ensures o.count.Some? <==> h.brand == "cisco" && SubCount(h.answers.countWalk).Ok?
    ensures o.count.Some? ==> o.count.value == SubCount(h.answers.countWalk).value && o.fault.None?
    ensures h.brand != "redback" && h.brand != "cisco" ==> o == Outcome([], None, None)
  {
    if h.brand == "redback" then
      var w := RedbackRun(types, h.answers.tags, h.answers.payloads, now);
      Outcome(w.records, None, w.fault)
    else if h.brand == "cisco" then
      match SubCount(h.answers.countWalk)
      case Err(f) => Outcome([], None, Some(f))
      case Ok(nb) => Outcome(CiscoRun(types, h.answers.next, now, Iterations(nb)), Some(nb), None)
    else Outcome([], None, None)
  }

  /** The outcome of every configured host, in configuration order. */
  function Outcomes(types: seq<TypeEntry>, hosts: seq<Host>, now: int): (outs: seq<Outcome>)
    ensures |outs| == |hosts|
    decreases |hosts|
  {
    if |hosts| == 0 then []
    else Outcomes(types, hosts[..|hosts| - 1], now) + [HostOutcome(types, hosts[|hosts| - 1], now)]
  }

  /** Each host's outcome sits at the host's own position. */
  lemma {:induction false} OutcomesAt(types: seq<TypeEntry>, hosts: seq<Host>, now: int)
    ensures forall k :: 0 <= k < |hosts| ==> Outcomes(types, hosts, now)[k] == HostOutcome(types, hosts[k], now)
    decreases |hosts|
  {
    if |hosts| > 0 {
      var init := hosts[..|hosts| - 1];
      OutcomesAt(types, init, now);
      assert forall k :: 0 <= k < |init| ==> init[k] == hosts[k];
    }
  }

  /** The `nb_sub` entries after a host: a count read from it replaces its entry. */
  function Counted(counts: map<string, int>, name: string, o: Outcome): map<string, int> {
    if o.count.Some? then counts[name := o.count.value] else counts
  }

  /** Rows collected from the first hosts, the `nb_sub` entries, and the fault that stopped the round. */
  datatype Collection = Collection(records: seq<Login>, counts: map<string, int>, fault: Option<Fault>)

  /** The host loop of `main` over the first `n` hosts' outcomes; a fault ends the round. */
  function Collected(hosts: seq<Host>, outs: seq<Outcome>, counts: map<string, int>, n: nat): Collection
    requires n <= |hosts| == |outs|
    decreases n
  {
    if n == 0 then Collection([], counts, None)
    else
      var c := Collected(hosts, outs, counts, n - 1);
      if c.fault.Some? then c
      else
        var o := outs[n - 1];
        Collection(c.records + o.records, Counted(c.counts, hosts[n - 1].name, o), o.fault)
  }

  /** The whole host loop of one round. */
  function RoundCollection(types: seq<TypeEntry>, hosts: seq<Host>, counts: map<string, int>, now: int): Collection {
    Collected(hosts, Outcomes(types, hosts, now), counts, |hosts|)
  }

  /**
   * Appending two batches of rows one after the other. The loop proofs call this
   * instead of leaving associativity to the solver, which keeps them small.
   */
  lemma AppendTwice(rows: seq<Login>, first: seq<Login>, second: seq<Login>)
    ensures rows + first + second == rows + (first + second)
  {
  }

  /** A fault at some host leaves the round's outcome as it was at that host. */
  lemma {:induction false} CollectedFaultSticks(hosts: seq<Host>, outs: seq<Outcome>, counts: map<string, int>,
                                                i: nat, n: nat)
    requires i <= n <= |hosts| == |outs| && Collected(hosts, outs, counts, i).fault.Some?
    ensures Collected(hosts, outs, counts, n) == Collected(hosts, outs, counts, i)
    decreases n
  {
    if n > i {
      CollectedFaultSticks(hosts, outs, counts, i, n - 1);
    }
  }

  /** Every row one host yields is a connected tuple stamped with the round's time. */
  lemma HostRowsSeenAt(types: seq<TypeEntry>, h: Host, now: int)
    ensures forall l :: l in HostOutcome(types, h, now).records ==> SeenAt(l, now)
  {
    WalkRowsSeenAt(types, h.answers.tags, h.answers.payloads, now);
    if h.brand == "cisco" && SubCount(h.answers.countWalk).Ok? {
      CiscoRunRowsSeenAt(types, h.answers.next, now, Iterations(SubCount(h.answers.countWalk).value));
    }
  }

  /** Every row of the first `n` hosts' collection is a row of one of their outcomes. */
  lemma {:induction false} CollectedRowsFrom(hosts: seq<Host>, outs: seq<Outcome>, counts: map<string, int>, n: nat)
    requires n <= |hosts| == |outs|
    ensures forall l :: l in Collected(hosts, outs, counts, n).records ==> exists k :: 0 <= k < n && l in outs[k].records
    decreases n
  {
    if n > 0 {
      var c := Collected(hosts, outs, counts, n - 1);
      CollectedRowsFrom(hosts, outs, counts, n - 1);
      if c.fault.None? {
        var o := outs[n - 1];
        assert forall l :: l in c.records + o.records ==> l in c.records || l in o.records;
      }
    }
  }

  /** Every row a round collects is a connected tuple stamped with the round's time. */
  lemma CollectedRowsSeenAt(types: seq<TypeEntry>, hosts: seq<Host>, counts: map<string, int>, now: int, n: nat)
    requires n <= |hosts|
    ensures forall l :: l in Collected(hosts, Outcomes(types, hosts, now), counts, n).records ==> SeenAt(l, now)
  {
    var outs := Outcomes(types, hosts, now);
    CollectedRowsFrom(hosts, outs, counts, n);
    OutcomesAt(types, hosts, now);
    forall l | l in Collected(hosts, outs, counts, n).records
      ensures SeenAt(l, now)
    {
      var k :| 0 <= k < n && l in outs[k].records;
      HostRowsSeenAt(types, hosts[k], now);
    }
  }

  /** The module-level lists and set of one run of the poller. */
  class Round {
    var connected: seq<Login>
    var linkLogins: seq<string>
    var shortLogins: set<string>

    constructor ()
      ensures connected == [] && linkLogins == [] && shortLogins == {}
    {
      connected := [];
      linkLogins := [];
      shortLogins := {};
    }

    /**
     * `redbackSNMPWalk`: the `i`-th payload is paired with the `i`-th walked tag; each
     * well-formed pair appends one tuple, and the first malformed one ends the walk.
     */
    method RedbackSNMPWalk(types: seq<TypeEntry>, tags: seq<string>, payloads: seq<string>, now: int)
      returns (fault: Option<Fault>)
      modifies this`connected
      ensures connected == old(connected) + RedbackRun(types, tags, payloads, now).records
      ensures fault == RedbackRun(types, tags, payloads, now).fault
    {
      ghost var es := WalkEntries(types, tags, payloads, now);
      var i := 0;
      assert es[..0] == [];
      while i < |payloads|
        invariant 0 <= i <= |payloads|
        invariant RunUntilFault(es[..i]).fault.None?
        invariant connected == old(connected) + RunUntilFault(es[..i]).records
      {
        RunStep(es, i);
        var line := RedbackVlanFind(payloads[i]);
        var user: Result<string> := Err(IndexError);
        if line.Ok? && i < |tags| {
          user := RedbackLoginDecode(tags[i]);
        }
        if line.Err? || i >= |tags| || user.Err? {
          fault := Some(if line.Err? then line.fault else if i >= |tags| then IndexError else user.fault);
          RunFaultSticks(es, i + 1);
          return;
        }
        var realm := RedbackRealm(user.value);
        if realm.Err? {
          fault := Some(realm.fault);
          RunFaultSticks(es, i + 1);
          return;
        }
        var subtype := if line.value.Vlan? then Line(line.value.text) else Classified(types, realm.value);
        var row := Seen(user.value, subtype, now);
        EntryOfParts(types, tags, i, payloads[i], now, line.value, user.value, realm.value);
        AppendTwice(old(connected), RunUntilFault(es[..i]).records, [row]);
        connected := connected + [row];
        i := i + 1;
      }
      assert es[..i] == es;
      fault := None;
    }

    /**
     * `ciscoSNMPGet`: `nb_sub` calls to `getnext`; each well-formed reply appends one
     * tuple and a malformed one is skipped.
     */
    method CiscoSNMPGet(config: Config, name: string, next: nat -> CiscoReply, now: int)
      requires name in config.nbSub
      modifies this`connected
      ensures connected == old(connected) + CiscoRun(config.types, next, now, Iterations(config.nbSub[name]))
    {
      var count := config.nbSub[name];
      ghost var es := CiscoEntries(config.types, next, now, Iterations(count));
      var i := 0;
      assert es[..0] == [];
      while i < count
        invariant 0 <= i <= Iterations(count)
        invariant connected == old(connected) + KeepOk(es[..i])
      {
        assert es[..i + 1][..i] == es[..i];
        var reply := ParseCiscoReply(next(i));
        if reply.Ok? {
          var f := reply.value;
          var row;
          if f.subtype != 0 {
            row := Seen(f.user, Code(f.subtype), now);
          } else {
            var subtype := Classified(config.types, f.realm);
            row := Seen(f.user, subtype, now);
          }
          assert es[i] == Ok(row);
          AppendTwice(old(connected), KeepOk(es[..i]), [row]);
          connected := connected + [row];
        }
        i := i + 1;
      }
      assert es[..i] == es;
    }

    /** One pass of the host loop of `main`, dispatched on the host's brand. */
    method CollectHost(config: Config, h: Host, now: int) returns (fault: Option<Fault>)
      modifies this`connected, config`nbSub
      ensures var o := HostOutcome(config.types, h, now);
        connected == old(connected) + o.records && config.nbSub == Counted(old(config.nbSub), h.name, o) &&
        fault == o.fault
    {
      fault := None;
      if h.brand == "redback" {
        fault := RedbackSNMPWalk(config.types, h.answers.tags, h.answers.payloads, now);
      }
      if h.brand == "cisco" {
        fault := config.CiscoTotalSub(h.name, h.answers.countWalk);
        if fault.None? {
          CiscoSNMPGet(config, h.name, h.answers.next, now);
        }
      }
    }

    /** After the first `k` hosts: the rows, `nb_sub` entries and fault they leave. */
    ghost predicate Reached(config: Config, outs: seq<Outcome>, counts: map<string, int>, rows: seq<Login>,
                            k: nat, fault: Option<Fault>)
      reads this, config
      requires k <= |config.hosts| == |outs|
    {
      var c := Collected(config.hosts, outs, counts, k);
      connected == rows + c.records && config.nbSub == c.counts && fault == c.fault
    }

    /** The host loop's step at host `k`, stated on the outcomes of all hosts. */
    method CollectNext(config: Config, now: int, ghost outs: seq<Outcome>, ghost counts: map<string, int>,
                       ghost rows: seq<Login>, k: nat) returns (fault: Option<Fault>)
      requires outs == Outcomes(config.types, config.hosts, now) && k < |config.hosts|
      requires Reached(config, outs, counts, rows, k, None)
      modifies this`connected, config`nbSub
      ensures Reached(config, outs, counts, rows, k + 1, fault)
    {
      ghost var c := Collected(config.hosts, outs, counts, k);
      OutcomesAt(config.types, config.hosts, now);
      fault := CollectHost(config, config.hosts[k], now);
      AppendTwice(rows, c.records, outs[k].records);
    }

    /** The host loop of `main`: every host of the configuration, in order. */
    method CollectHosts(config: Config, now: int) returns (fault: Option<Fault>)
      modifies this`connected, config`nbSub
      ensures var c := RoundCollection(config.types, config.hosts, old(config.nbSub), now);
        connected == old(connected) + c.records && config.nbSub == c.counts && fault == c.fault
    {
      ghost var outs := Outcomes(config.types, config.hosts, now);
      ghost var counts, rows := config.nbSub, connected;
      fault := None;
      var k := 0;
      while k < |config.hosts| && fault.None?
        invariant 0 <= k <= |config.hosts|
        invariant Reached(config, outs, counts, rows, k, fault)
      {
        fault := CollectNext(config, now, outs, counts, rows, k);
        k := k + 1;
      }
      if fault.Some? {
        CollectedFaultSticks(config.hosts, outs, counts, k, |config.hosts|);
      }
    }

    /** Lines 257-259 of `main`: one line-group key and one username per collected row. */
    method BuildLoginSets()
      modifies this`linkLogins, this`shortLogins
      ensures linkLogins == old(linkLogins) + LineKeys(connected)
      ensures shortLogins == old(shortLogins) + Users(connected)
    {
      var rows, i := connected, 0;
      while i < |rows|
        invariant 0 <= i <= |rows|
        invariant linkLogins == old(linkLogins) + LineKeys(rows[..i])
        invariant shortLogins == old(shortLogins) + Users(rows[..i])
      {
        assert rows[..i + 1] == rows[..i] + [rows[i]];
        LineKeysOfAppend(rows[..i], rows[i]);
        UsersOfAppend(rows[..i], rows[i]);
        linkLogins := linkLogins + [LineKey(rows[i].user)];
        shortLogins := shortLogins + {rows[i].user};
        i := i + 1;
      }
      assert rows[..i] == rows;
    }

    /**
     * The collecting half of `main`: the host loop, then the username and line-group
     * sets and the de-duplicated batch for the first upsert. A fault ends the run
     * before any of that.
     */
    method CollectRound(config: Config, now: int) returns (batch: Result<set<Login>>)
      modifies this, config`nbSub
      ensures var c := RoundCollection(config.types, config.hosts, old(config.nbSub), now);
        connected == old(connected) + c.records && config.nbSub == c.counts &&
        (c.fault.Some? ==> batch == Err(c.fault.value) &&
                           linkLogins == old(linkLogins) && shortLogins == old(shortLogins)) &&
        (c.fault.None? ==> batch == Ok(UpsertBatch(connected)) &&
                           linkLogins == old(linkLogins) + LineKeys(connected) &&
                           shortLogins == old(shortLogins) + Users(connected))
    {
      var fault := CollectHosts(config, now);
      if fault.Some? {
        return Err(fault.value);
      }
      BuildLoginSets();
      return Ok(UpsertBatch(connected));
    }
  }
}
