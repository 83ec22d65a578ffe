/**
 * The Cisco side of a polling round: the subscriber count read before the replies,
 * the parsing of each (port, domain, username) reply, and the loop that appends one
 * row tuple per well-formed reply and skips the others.
 */
module Cisco {
  import opened Results
  import opened PyStr
  import opened Subscribers
  import opened Classify

  // ---------------------------------------------------------------- count

  /**
   * `ciscoTotalSub`: the integer value of the first walked reply, or `0` when the
   * walk returned nothing; a non-integer value raises ValueError.
   */
  function SubCount(walk: seq<string>): (r: Result<int>)
    ensures |walk| == 0 ==> r == Ok(0)
    ensures |walk| > 0 ==> (r.Ok? <==> ParseInt(walk[0]).Some?) && (r.Ok? ==> r.value == ParseInt(walk[0]).value)
    ensures r.Err? ==> r.fault == ValueError
  {
    if |walk| == 0 then Ok(0)
    else
      match ParseInt(walk[0])
      case None => Err(ValueError)
      case Some(n) => Ok(n)
  }

  /** A count reply reads back as the number it carries; no reply reads as zero. */
  lemma SubCountOfReply(n: int, rest: seq<string>)
    ensures SubCount([ShowInt(n)] + rest) == Ok(n)
    ensures SubCount([]) == Ok(0)
  {
    ParseShowInt(n);
  }

  /** How many times `range(nb_sub)` runs the loop body. */
  function Iterations(nbSub: int): nat {
    if nbSub > 0 then nbSub else 0
  }

  // ---------------------------------------------------------------- replies

  /** One `getnext` reply: port identifier, domain and username, any of them possibly `None`. */
  datatype CiscoReply = CiscoReply(port: Option<string>, domain: Option<string>, user: Option<string>)

  /** The three values `ciscoSNMPGet` reads from a reply. */
  datatype ReplyFields = ReplyFields(subtype: int, realm: string, user: string)

  /**
   * Lines 163-165 of `ciscoSNMPGet`: the integer before the first `.` of the last
   * `/`-segment of the port, the domain after its first `.`, and the username.
   * A `None` field raises AttributeError.
   */
  function ParseCiscoReply(reply: CiscoReply): (r: Result<ReplyFields>)
    ensures r.Ok? ==> reply.port.Some? && reply.domain.Some? && reply.user == Some(r.value.user)
    ensures reply.port.None? ==> r == Err(AttributeError)
    ensures r == Err(AttributeError) ==> reply.port.None? || reply.domain.None? || reply.user.None?
    ensures r.Err? ==> r.fault == IndexError || r.fault == ValueError || r.fault == AttributeError
  {
    match reply.port
    case None => Err(AttributeError)
    case Some(port) =>
      var segments := SplitMax(port, "/", -1);
      match ParseInt(SplitMax(segments[|segments| - 1], ".", -1)[0])
      case None => Err(ValueError)
      case Some(subtype) =>
        match reply.domain
        case None => Err(AttributeError)
        case Some(domain) =>
          var parts := SplitMax(domain, ".", 1);
          if |parts| < 2 then Err(IndexError)
          else
            match reply.user
            case None => Err(AttributeError)
            case Some(user) => Ok(ReplyFields(subtype, parts[1], user))
  }

  /** The last `/`-segment of `path/last` is `last` when `last` has no `/`. */
  lemma LastSegment(path: string, last: string)
    requires '/' !in last
    ensures var segments := SplitMax(path + "/" + last, "/", -1); segments[|segments| - 1] == last
  {
    SplitConcat(path, '/', last);
    SplitWithout(last, '/', -1);
  }

  /** The text before the first `.` of `<n>` or `<n>.<sub>` is `str(n)`. */
  lemma FirstDotField(n: int, sub: Option<string>)
    ensures SplitMax(ShowInt(n) + (if sub.Some? then "." + sub.value else ""), ".", -1)[0] == ShowInt(n)
  {
    assert '.' !in ShowInt(n) by {
      assert ShowInt(n) == if n < 0 then "-" + ShowNat(-n) else ShowNat(n);
      DigitsAvoid(ShowNat(if n < 0 then -n else n), '.');
    }
    if sub.Some? {
      assert ShowInt(n) + ("." + sub.value) == ShowInt(n) + ['.'] + sub.value;
      SplitAtFirst(ShowInt(n), '.', sub.value, -1);
    } else {
      assert ShowInt(n) + "" == ShowInt(n);
      SplitWithout(ShowInt(n), '.', -1);
    }
  }

  /** The port number of `.../<n>` or `.../<n>.<sub>` reads back as `n`. */
  lemma PortNumber(path: string, n: int, sub: Option<string>)
    requires '/' !in ShowInt(n) && (sub.Some? ==> '/' !in sub.value)
    ensures var segments := SplitMax(path + "/" + ShowInt(n) + (if sub.Some? then "." + sub.value else ""), "/", -1);
      ParseInt(SplitMax(segments[|segments| - 1], ".", -1)[0]) == Some(n)
  {
    var last := ShowInt(n) + (if sub.Some? then "." + sub.value else "");
    assert path + "/" + ShowInt(n) + (if sub.Some? then "." + sub.value else "") == path + "/" + last;
    assert '/' !in last;
    LastSegment(path, last);
    FirstDotField(n, sub);
    ParseShowInt(n);
  }

  /**
   * A port `.../<n>` or `.../<n>.<sub>`, a domain `<host>.<realm>` and a username
   * read back as `n`, `realm` and the username.
   */
  lemma ReplyFieldsOfPortAndDomain(path: string, n: int, sub: Option<string>, host: string, realm: string, user: string)
    requires '/' !in ShowInt(n) && (sub.Some? ==> '/' !in sub.value)
    requires '.' !in host
    ensures var port := path + "/" + ShowInt(n) + (if sub.Some? then "." + sub.value else "");
      ParseCiscoReply(CiscoReply(Some(port), Some(host + "." + realm), Some(user))) == Ok(ReplyFields(n, realm, user))
  {
    PortNumber(path, n, sub);
    SplitAtFirst(host, '.', realm, 1);
    assert SplitMax(realm, ".", 0) == [realm];
  }

  /** A port whose last `/`-segment does not start with an integer raises ValueError. */
  lemma NonIntegerPortFails(path: string, last: string, domain: Option<string>, user: Option<string>)
    requires '/' !in last && ParseInt(SplitMax(last, ".", -1)[0]).None?
    ensures ParseCiscoReply(CiscoReply(Some(path + "/" + last), domain, user)) == Err(ValueError)
  {
    LastSegment(path, last);
  }

  /** A port without `/` whose text before the first `.` is not an integer raises ValueError. */
  lemma NonIntegerBarePortFails(port: string, domain: Option<string>, user: Option<string>)
    requires '/' !in port && ParseInt(SplitMax(port, ".", -1)[0]).None?
    ensures ParseCiscoReply(CiscoReply(Some(port), domain, user)) == Err(ValueError)
  {
    SplitWithout(port, '/', -1);
  }

  /** A domain without a dot makes the reply fail, whatever its port says. */
  lemma DotlessDomainFails(port: Option<string>, domain: string, user: Option<string>)
    requires '.' !in domain
    ensures ParseCiscoReply(CiscoReply(port, Some(domain), user)).Err?
  {
    SplitWithout(domain, '.', 1);
  }

  /**
   * The loop body of `ciscoSNMPGet` for one reply: a nonzero port number is the
   * subtype, zero falls back to the realm classifier; any exception skips the reply.
   */
  function CiscoEntry(types: seq<TypeEntry>, reply: CiscoReply, now: int): (r: Result<Login>)
    ensures r.Ok? <==> ParseCiscoReply(reply).Ok?
    ensures r.Ok? ==> SeenAt(r.value, now) && r.value.user == ParseCiscoReply(reply).value.user
    ensures r.Ok? ==> var f := ParseCiscoReply(reply).value;
      r.value.subtype == (if f.subtype != 0 then Code(f.subtype) else Classified(types, f.realm))
  {
    match ParseCiscoReply(reply)
    case Err(e) => Err(e)
    case Ok(f) =>
      if f.subtype != 0 then Ok(Seen(f.user, Code(f.subtype), now))
      else Ok(Seen(f.user, Classified(types, f.realm), now))
  }

  /** The outcome of each of the first `n` `getnext` replies, in call order. */
  function CiscoEntries(types: seq<TypeEntry>, next: nat -> CiscoReply, now: int, n: nat): (es: seq<Result<Login>>)
    ensures |es| == n
    ensures forall k :: 0 <= k < n ==> es[k] == CiscoEntry(types, next(k), now)
  {
    seq(n, k requires 0 <= k < n => CiscoEntry(types, next(k), now))
  }

  /** A loop whose handler skips a failed iteration: the rows of the good ones, in order. */
  function KeepOk(es: seq<Result<Login>>): (rows: seq<Login>)
    ensures |rows| <= |es|
    decreases |es|
  {
    if |es| == 0 then []
    else
      var rows := KeepOk(es[..|es| - 1]);
      match es[|es| - 1]
      case Ok(l) => rows + [l]
      case Err(_) => rows
  }

  /** The rows appended by the first `n` iterations of the `ciscoSNMPGet` loop. */
  function CiscoRun(types: seq<TypeEntry>, next: nat -> CiscoReply, now: int, n: nat): (rows: seq<Login>)
    ensures |rows| <= n
  {
    KeepOk(CiscoEntries(types, next, now, n))
  }

  /** Each kept row is the row of some iteration. */
  lemma {:induction false} KeepOkFrom(es: seq<Result<Login>>)
    ensures forall l :: l in KeepOk(es) ==> Ok(l) in es
    decreases |es|
  {
    if |es| > 0 {
      var init := es[..|es| - 1];
      KeepOkFrom(init);
      assert forall r :: r in init ==> r in es;
    }
  }

  /** Two stretches of iterations one after the other keep the rows of each, in order. */
  lemma {:induction false} KeepOkAppend(a: seq<Result<Login>>, b: seq<Result<Login>>)
    ensures KeepOk(a + b) == KeepOk(a) + KeepOk(b)
    decreases |b|
  {
    if |b| > 0 {
      var init := b[..|b| - 1];
      assert (a + b)[..|a + b| - 1] == a + init;
      assert (a + b)[|a + b| - 1] == b[|b| - 1];
      KeepOkAppend(a, init);
      match b[|b| - 1]
      case Ok(l) =>
        assert KeepOk(a) + KeepOk(init) + [l] == KeepOk(a) + (KeepOk(init) + [l]);
      case Err(_) =>
    } else {
      assert a + b == a;
    }
  }

  /** A good iteration's row is kept, right after the rows of the iterations before it. */
  lemma KeepOkKeeps(es: seq<Result<Login>>, k: nat)
    requires k < |es| && es[k].Ok?
    ensures |KeepOk(es[..k])| < |KeepOk(es)|
    ensures KeepOk(es)[|KeepOk(es[..k])|] == es[k].value
  {
    assert es == es[..k] + [es[k]] + es[k + 1..];
    KeepOkAppend(es[..k] + [es[k]], es[k + 1..]);
    KeepOkAppend(es[..k], [es[k]]);
    assert [es[k]][..0] == [];
  }

  /** With no failed iteration, every iteration gives its row, in order. */
  lemma {:induction false} KeepOkAll(es: seq<Result<Login>>)
    requires forall k :: 0 <= k < |es| ==> es[k].Ok?
    ensures |KeepOk(es)| == |es|
    ensures forall k :: 0 <= k < |es| ==> KeepOk(es)[k] == es[k].value
    decreases |es|
  {
    if |es| > 0 {
      KeepOkAll(es[..|es| - 1]);
    }
  }

  /** One failed iteration costs exactly its own row. */
  lemma {:induction false} KeepOkSkipsOne(es: seq<Result<Login>>, m: nat)
    requires m < |es|
    requires forall k :: 0 <= k < |es| ==> (es[k].Ok? <==> k != m)
    ensures |KeepOk(es)| == |es| - 1
    ensures forall k :: 0 <= k < |es| && k != m ==> KeepOk(es)[if k < m then k else k - 1] == es[k].value
    decreases |es|
  {
    var init := es[..|es| - 1];
    if |es| == m + 1 {
      KeepOkAll(init);
    } else {
      KeepOkSkipsOne(init, m);
    }
  }

  /** Every row the loop appends is a connected tuple stamped with the round's time. */
  lemma CiscoRunRowsSeenAt(types: seq<TypeEntry>, next: nat -> CiscoReply, now: int, n: nat)
    ensures forall l :: l in CiscoRun(types, next, now, n) ==> SeenAt(l, now)
  {
    var es := CiscoEntries(types, next, now, n);
    KeepOkFrom(es);
    forall l | l in KeepOk(es)
      ensures SeenAt(l, now)
    {
      var k :| 0 <= k < |es| && es[k] == Ok(l);
    }
  }

  /** With no bad reply, every reply gives its row, in order. */
  lemma CiscoRunAllGood(types: seq<TypeEntry>, next: nat -> CiscoReply, now: int, n: nat)
    requires forall k :: 0 <= k < n ==> CiscoEntry(types, next(k), now).Ok?
    ensures |CiscoRun(types, next, now, n)| == n
    ensures forall k :: 0 <= k < n ==> CiscoRun(types, next, now, n)[k] == CiscoEntry(types, next(k), now).value
  {
    KeepOkAll(CiscoEntries(types, next, now, n));
  }

  /**
   * Every good reply's row is stored, after the rows of the replies before it: a bad
   * reply elsewhere costs only its own row.
   */
  lemma CiscoRunKeepsGoodReply(types: seq<TypeEntry>, next: nat -> CiscoReply, now: int, n: nat, k: nat)
    requires k < n && CiscoEntry(types, next(k), now).Ok?
    ensures |CiscoRun(types, next, now, k)| < |CiscoRun(types, next, now, n)|
    ensures CiscoRun(types, next, now, n)[|CiscoRun(types, next, now, k)|] == CiscoEntry(types, next(k), now).value
  {
    var es := CiscoEntries(types, next, now, n);
    assert es[..k] == CiscoEntries(types, next, now, k);
    KeepOkKeeps(es, k);
  }

  /**
   * One bad reply among `n` good ones costs exactly its own row: the others keep
   * their rows, in order.
   */
  lemma CiscoRunSkipsBadReply(types: seq<TypeEntry>, next: nat -> CiscoReply, now: int, n: nat, m: nat)
    requires m < n
    requires forall k :: 0 <= k < n ==> (CiscoEntry(types, next(k), now).Ok? <==> k != m)
    ensures |CiscoRun(types, next, now, n)| == n - 1
    ensures forall k :: 0 <= k < n && k != m ==>
      CiscoRun(types, next, now, n)[if k < m then k else k - 1] == CiscoEntry(types, next(k), now).value
  {
    KeepOkSkipsOne(CiscoEntries(types, next, now, n), m);
  }
}
