/**
 * The Redback side of a polling round: decoding the username carried in each walked
 * OID tag, reading the line text from the session payload, deriving the realm used
 * when the router does not report a line, and the walk loop that turns every
 * (tag, payload) pair into a row tuple, stopping at the first malformed one.
 */
module Redback {
  import opened Results
  import opened PyStr
  import opened Subscribers
  import opened Classify

  /**
   * The long-name form of the walked column, up to and including the dot before the
   * index (written in two parts so that its second character is visible to proofs).
   */
  const OidPrefix: string := ".iso" + ".org.dod.internet.private.enterprises.2352.2.27.1.1.1.1.3."

  /** The payload marker of an L2TP LNS session, which reports no line. */
  const LnsMarker: string := "L2TP LNS"

  // ------------------------------------------------------- username decoding

  /** Bounds of a C `int`, the type `chr` converts its argument to. */
  const CIntMin: int := -0x8000_0000
  const CIntMax: int := 0x7FFF_FFFF

  /** Bounds of `Py_ssize_t` on a 64-bit build, the type `split` converts `maxsplit` to. */
  const SsizeMin: int := -0x8000_0000_0000_0000
  const SsizeMax: int := 0x7FFF_FFFF_FFFF_FFFF

  /**
   * `split3` of `redbackLoginDecode`: the text after the prefix, its leading length
   * field `j`, and the first `j` dot-separated fields after it. A `j` that does not
   * fit `Py_ssize_t` raises OverflowError once the dot after it has been found.
   */
  function LoginFields(tag: string): (r: Result<seq<string>>)
    ensures r.Err? ==> r.fault != AttributeError
  {
    var split1 := SplitMax(tag, OidPrefix, -1);
    if |split1| < 2 then Err(IndexError)
    else
      var split2 := SplitMax(split1[1], ".", 1);
      match ParseInt(split2[0])
      case None => Err(ValueError)
      case Some(j) =>
        if |split2| < 2 then Err(IndexError)
        else if j < SsizeMin || SsizeMax < j then Err(OverflowError)
        else Ok(TakePy(SplitMax(split2[1], ".", j), j))
  }

  /**
   * `chr(int(field))`: ValueError for a field that is not an integer, OverflowError
   * for one that does not fit a C `int`, ValueError for any other number that is not
   * a code point (Dafny's `char` also leaves out the surrogate range).
   */
  function CodeChar(field: string): (r: Result<char>)
    ensures r.Ok? ==> ParseInt(field) == Some(r.value as int)
    ensures r == Err(OverflowError) <==> ParseInt(field).Some? && !(CIntMin <= ParseInt(field).value <= CIntMax)
    ensures r.Err? ==> r.fault == ValueError || r.fault == OverflowError
  {
    match ParseInt(field)
    case None => Err(ValueError)
    case Some(n) =>
      if n < CIntMin || CIntMax < n then Err(OverflowError)
      else if 0 <= n < 0xD800 || 0xE000 <= n < 0x11_0000 then Ok(n as char)
      else Err(ValueError)
  }

  /** The characters of the code-point fields, or the fault of the first bad one. */
  function FieldsToLogin(fields: seq<string>): (r: Result<string>)
    ensures r.Ok? ==> |r.value| == |fields|
    ensures r.Err? ==> r.fault == ValueError || r.fault == OverflowError
    decreases |fields|
  {
    if |fields| == 0 then Ok("")
    else
      match CodeChar(fields[0])
      case Err(f) => Err(f)
      case Ok(c) =>
        match FieldsToLogin(fields[1..])
        case Err(f) => Err(f)
        case Ok(s) => Ok([c] + s)
  }

  /**
   * The fields decode exactly when each is a character code, one character per
   * field; otherwise the fault is that of the first field that is not.
   */
  lemma {:induction false} FieldsToLoginSpec(fields: seq<string>)
    ensures var r := FieldsToLogin(fields);
      (r.Ok? <==> forall k :: 0 <= k < |fields| ==> CodeChar(fields[k]).Ok?) &&
      (r.Ok? ==> |r.value| == |fields| && forall k :: 0 <= k < |fields| ==> r.value[k] == CodeChar(fields[k]).value) &&
      (r.Err? ==> exists k :: 0 <= k < |fields| && FirstBad(fields, k) && CodeChar(fields[k]) == Err(r.fault))
    decreases |fields|
  {
    if |fields| > 0 {
      FieldsToLoginSpec(fields[1..]);
      assert forall k :: 1 <= k < |fields| ==> fields[k] == fields[1..][k - 1];
      var r := FieldsToLogin(fields);
      if r.Err? {
        if CodeChar(fields[0]).Err? {
          assert FirstBad(fields, 0);
        } else {
          var k :| 0 <= k < |fields[1..]| && FirstBad(fields[1..], k) && CodeChar(fields[1..][k]) == Err(r.fault);
          assert FirstBad(fields, k + 1);
        }
      }
    }
  }

  /** Field `k` is bad and every field before it is a character code. */
  predicate FirstBad(fields: seq<string>, k: nat)
    requires k < |fields|
  {
    CodeChar(fields[k]).Err? && forall i :: 0 <= i < k ==> CodeChar(fields[i]).Ok?
  }

  /** The username a tag encodes, as `redbackLoginDecode` computes it. */
  function DecodeLogin(tag: string): (r: Result<string>)
    ensures r.Ok? ==> LoginFields(tag).Ok? && |r.value| == |LoginFields(tag).value|
    ensures r.Err? ==> r.fault != AttributeError
  {
    match LoginFields(tag)
    case Err(f) => Err(f)
    case Ok(fields) => FieldsToLogin(fields)
  }

  /** `text` put in front of a successful result. */
  function Prefixed(text: string, r: Result<string>): Result<string> {
    match r
    case Ok(s) => Ok(text + s)
    case Err(f) => Err(f)
  }

  /** `redbackLoginDecode`: cuts the tag into fields, then decodes them. */
  method RedbackLoginDecode(tag: string) returns (r: Result<string>)
    ensures r == DecodeLogin(tag)
  {
    var fields := LoginFields(tag);
    if fields.Err? {
      return Err(fields.fault);
    }
    r := DecodeFields(fields.value);
  }

  /** The loop of `redbackLoginDecode`: appends `chr(int(field))` for each field in turn. */
  method DecodeFields(split3: seq<string>) returns (r: Result<string>)
    ensures r == FieldsToLogin(split3)
  {
    var login := "";
    var k := 0;
    assert split3[k..] == split3;
    assert Prefixed(login, FieldsToLogin(split3)) == FieldsToLogin(split3) by {
      if FieldsToLogin(split3).Ok? {
        assert login + FieldsToLogin(split3).value == FieldsToLogin(split3).value;
      }
    }
    while k < |split3|
      invariant 0 <= k <= |split3|
      invariant FieldsToLogin(split3) == Prefixed(login, FieldsToLogin(split3[k..]))
    {
      assert split3[k..][1..] == split3[k + 1..];
      var c := CodeChar(split3[k]);
      if c.Err? {
        return Err(c.fault);
      }
      var tail := FieldsToLogin(split3[k + 1..]);
      if tail.Ok? {
        assert login + ([c.value] + tail.value) == (login + [c.value]) + tail.value;
      }
      login := login + [c.value];
      k := k + 1;
    }
    assert login + "" == login;
    return Ok(login);
  }

  // ------------------------------------------------------- username encoding

  /** Text made only of what an OID's dotted decimal form contains. */
  predicate OidText(s: string) {
    forall k :: 0 <= k < |s| ==> IsDigit(s[k]) || s[k] == '.'
  }

  /** The decimal code point of each character. */
  function CodeFields(login: string): (r: seq<string>)
    ensures |r| == |login| && forall k :: 0 <= k < |login| ==> r[k] == ShowNat(login[k] as int)
  {
    seq(|login|, k requires 0 <= k < |login| => ShowNat(login[k] as int))
  }

  /**
   * The tag that `redbackLoginDecode` reads back as `login`: the prefix, the length,
   * then one sub-identifier per character. For an ASCII username this is the string
   * index of section 7.7 of RFC 2578, which writes one sub-identifier per octet.
   */
  function EncodeLogin(login: string): string {
    OidPrefix + ShowNat(|login|) + "." + Join(CodeFields(login), ".")
  }

  lemma OidTextLacksPrefix(s: string)
    requires OidText(s)
    ensures !Contains(s, OidPrefix)
  {
    assert OidPrefix[1] == 'i';
    forall i | 0 <= i <= |s| - |OidPrefix| ensures !OccursAt(s, OidPrefix, i) {
      assert s[i..i + |OidPrefix|][1] == s[i + 1];
    }
  }

  lemma {:induction false} JoinOidText(parts: seq<string>)
    requires forall k :: 0 <= k < |parts| ==> OidText(parts[k])
    ensures OidText(Join(parts, "."))
    decreases |parts|
  {
    if |parts| > 1 {
      JoinOidText(parts[1..]);
    }
  }

  lemma CodeCharOfShow(c: char)
    ensures CodeChar(ShowNat(c as int)) == Ok(c)
  {
    ParseShowInt(c as int);
  }

  /** A code too large for a C `int` makes `chr` raise OverflowError. */
  lemma CodeCharOverflow(n: nat)
    requires n > CIntMax
    ensures CodeChar(ShowNat(n)) == Err(OverflowError)
  {
    ParseShowInt(n);
  }

  /** A code that fits a C `int` but is past the last code point raises ValueError. */
  lemma CodeCharPastUnicode(n: nat)
    requires 0x11_0000 <= n <= CIntMax
    ensures CodeChar(ShowNat(n)) == Err(ValueError)
  {
    ParseShowInt(n);
  }

  lemma SplitOffPrefix(rest: string)
    requires !Contains(rest, OidPrefix)
    ensures SplitMax(OidPrefix + rest, OidPrefix, -1) == ["", rest]
  {
    var tag := OidPrefix + rest;
    assert tag[..|OidPrefix|] == OidPrefix && tag[|OidPrefix|..] == rest;
    SplitAbsent(rest, OidPrefix, -1);
  }

  /** How a tag of the expected shape is cut into fields. */
  lemma FieldsOfTag(lengthText: string, body: string)
    requires '.' !in lengthText && !Contains(lengthText + "." + body, OidPrefix)
    ensures LoginFields(OidPrefix + lengthText + "." + body) ==
      match ParseInt(lengthText)
      case None => Err(ValueError)
      case Some(j) =>
        if j < SsizeMin || SsizeMax < j then Err(OverflowError)
        else Ok(TakePy(SplitMax(body, ".", j), j))
  {
    var rest := lengthText + "." + body;
    assert OidPrefix + lengthText + "." + body == OidPrefix + rest;
    SplitOffPrefix(rest);
    SplitAtFirst(lengthText, '.', body, 1);
    assert SplitMax(body, ".", 0) == [body];
    assert SplitMax(rest, ".", 1) == [lengthText, body];
  }

  /** A digits-and-dots body under a decimal length is cut as `FieldsOfTag` says. */
  lemma FieldsOfOidTag(j: nat, body: string)
    requires OidText(body)
    ensures LoginFields(OidPrefix + ShowNat(j) + "." + body) ==
      if SsizeMax < j then Err(OverflowError) else Ok(TakePy(SplitMax(body, ".", j), j))
  {
    var rest := ShowNat(j) + "." + body;
    AllDigitsAt(ShowNat(j));
    assert OidText(rest);
    OidTextLacksPrefix(rest);
    DigitsAvoid(ShowNat(j), '.');
    FieldsOfTag(ShowNat(j), body);
    ParseShowInt(j);
  }

  lemma CodeFieldsAreOidText(login: string)
    ensures OidText(Join(CodeFields(login), "."))
    ensures Avoids(CodeFields(login), '.')
  {
    var cf := CodeFields(login);
    forall k | 0 <= k < |cf| ensures OidText(cf[k]) && '.' !in cf[k] {
      DigitsAvoid(cf[k], '.');
      AllDigitsAt(cf[k]);
    }
    JoinOidText(cf);
  }

  /** Joined fields under a large enough declared length decode field by field. */
  lemma DecodeJoinedFields(j: nat, fields: seq<string>)
    requires 1 <= |fields| <= j <= SsizeMax && Avoids(fields, '.')
    requires !Contains(ShowNat(j) + "." + Join(fields, "."), OidPrefix)
    ensures DecodeLogin(OidPrefix + ShowNat(j) + "." + Join(fields, ".")) == FieldsToLogin(fields)
  {
    DigitsAvoid(ShowNat(j), '.');
    FieldsOfTag(ShowNat(j), Join(fields, "."));
    ParseShowInt(j);
    SplitJoin(fields, '.', j);
    assert TakePy(fields, j) == fields;
  }

  /**
   * A declared length at least the number of fields present decodes all of them:
   * when it exceeds them the login is shorter than declared, not an error.
   */
  lemma DecodeDeclaredLength(login: string, j: nat)
    requires SsizeMax >= j >= |login| && (|login| == 0 ==> j == 0)
    ensures DecodeLogin(OidPrefix + ShowNat(j) + "." + Join(CodeFields(login), ".")) == Ok(login)
  {
    var cf := CodeFields(login);
    CodeFieldsAreOidText(login);
    if |login| == 0 {
      FieldsOfOidTag(j, Join(cf, "."));
      assert TakePy(SplitMax("", ".", 0), 0) == [];
    } else {
      var rest := ShowNat(j) + "." + Join(cf, ".");
      AllDigitsAt(ShowNat(j));
      assert OidText(rest);
      OidTextLacksPrefix(rest);
      DecodeJoinedFields(j, cf);
    }
    forall k | 0 <= k < |cf| ensures CodeChar(cf[k]) == Ok(login[k]) {
      CodeCharOfShow(login[k]);
    }
    var r := FieldsToLogin(cf);
    FieldsToLoginSpec(cf);
    assert r.Ok? && |r.value| == |login|;
    assert r.value == login;
  }

  /** Decoding an encoded login gives the login back. */
  lemma DecodeEncodeLogin(login: string)
    requires |login| <= SsizeMax
    ensures DecodeLogin(EncodeLogin(login)) == Ok(login)
  {
    DecodeDeclaredLength(login, |login|);
  }

  /**
   * Sub-identifiers are read one character each, not as octets of an encoding: the
   * UTF-8 octets 195 and 169 of `é` come back as the two characters `Ã` and `©`.
   */
  lemma OctetsDecodeAsCharacters()
    ensures DecodeLogin(OidPrefix + "2.195.169") == Ok([195 as char, 169 as char])
  {
    var login := [195 as char, 169 as char];
    assert ShowNat(2) == "2";
    assert ShowNat(195) == "195" by {
      assert ShowNat(19) == "19";
    }
    assert ShowNat(169) == "169" by {
      assert ShowNat(16) == "16";
    }
    assert CodeFields(login) == ["195", "169"];
    assert Join(["195", "169"], ".") == "195.169" by {
      assert Join(["169"], ".") == "169";
    }
    assert EncodeLogin(login) == OidPrefix + "2.195.169";
    DecodeEncodeLogin(login);
  }

  /** Sub-identifiers after the `j` declared ones are ignored. */
  lemma DecodeIgnoresExtraFields(login: string, extra: string)
    requires 0 < |login| <= SsizeMax && OidText(extra)
    ensures DecodeLogin(EncodeLogin(login) + "." + extra) == Ok(login)
  {
    var cf := CodeFields(login);
    CodeFieldsAreOidText(login);
    var body := Join(cf, ".") + "." + extra;
    assert OidText(body);
    assert EncodeLogin(login) + "." + extra == OidPrefix + ShowNat(|login|) + "." + body;
    FieldsOfOidTag(|login|, body);
    SplitJoinThenTail(cf, '.', extra);
    assert TakePy(cf + [extra], |login|) == cf;
    forall k | 0 <= k < |cf| ensures CodeChar(cf[k]) == Ok(login[k]) {
      CodeCharOfShow(login[k]);
    }
    var r := FieldsToLogin(cf);
    FieldsToLoginSpec(cf);
    assert r.Ok? && |r.value| == |login|;
    assert r.value == login;
  }

  /** A declared length of zero decodes to the empty login, whatever follows. */
  lemma DecodeZeroLength(rest: string)
    requires OidText(rest)
    ensures DecodeLogin(OidPrefix + "0." + rest) == Ok("")
  {
    assert ShowNat(0) == "0";
    assert OidPrefix + "0." + rest == OidPrefix + ShowNat(0) + "." + rest;
    FieldsOfOidTag(0, rest);
  }

  /** A declared length that does not fit `Py_ssize_t` raises OverflowError. */
  lemma DecodeHugeLength(j: nat, body: string)
    requires SsizeMax < j && OidText(body)
    ensures DecodeLogin(OidPrefix + ShowNat(j) + "." + body) == Err(OverflowError)
  {
    FieldsOfOidTag(j, body);
  }

  /**
   * A positive declared length with nothing after the dot raises ValueError: the
   * empty remainder splits into one empty field, which is not an integer.
   */
  lemma DecodeEmptyFields(j: nat)
    requires 0 < j <= SsizeMax
    ensures DecodeLogin(OidPrefix + ShowNat(j) + ".") == Err(ValueError)
  {
    assert OidPrefix + ShowNat(j) + "." == OidPrefix + ShowNat(j) + "." + "";
    FieldsOfOidTag(j, "");
    assert TakePy(SplitMax("", ".", j), j) == [""];
    assert CodeChar("") == Err(ValueError);
  }

  /** The decoded login is never longer than the declared length. */
  lemma DecodedLengthAtMost(j: nat, body: string)
    requires OidText(body)
    requires DecodeLogin(OidPrefix + ShowNat(j) + "." + body).Ok?
    ensures |DecodeLogin(OidPrefix + ShowNat(j) + "." + body).value| <= j
  {
    FieldsOfOidTag(j, body);
    FieldsToLoginSpec(TakePy(SplitMax(body, ".", j), j));
  }

  /** A tag without the prefix raises IndexError. */
  lemma DecodeWithoutPrefix(tag: string)
    requires !Contains(tag, OidPrefix)
    ensures DecodeLogin(tag) == Err(IndexError)
  {
    SplitAbsent(tag, OidPrefix, -1);
  }

  /**
   * A length field with no dot after it raises IndexError; this includes the RFC 2578
   * index of the empty string, which is the single field `0`.
   */
  lemma DecodeWithoutDot(lengthText: string)
    requires IsDigits(lengthText)
    ensures DecodeLogin(OidPrefix + lengthText) == Err(IndexError)
  {
    AllDigitsAt(lengthText);
    assert OidText(lengthText);
    OidTextLacksPrefix(lengthText);
    SplitOffPrefix(lengthText);
    DigitsAvoid(lengthText, '.');
    SplitWithout(lengthText, '.', 1);
  }

  /** A length field that is not an integer raises ValueError. */
  lemma DecodeBadLength(lengthText: string, body: string)
    requires '.' !in lengthText && ParseInt(lengthText).None?
    requires !Contains(lengthText + "." + body, OidPrefix)
    ensures DecodeLogin(OidPrefix + lengthText + "." + body) == Err(ValueError)
  {
    FieldsOfTag(lengthText, body);
  }

  /**
   * The first code-point field that is not a character code raises what `chr(int(…))`
   * raises on it: ValueError or OverflowError.
   */
  lemma DecodeBadField(fields: seq<string>, k: nat)
    requires k < |fields| <= SsizeMax && Avoids(fields, '.') && FirstBad(fields, k)
    requires !Contains(ShowNat(|fields|) + "." + Join(fields, "."), OidPrefix)
    ensures DecodeLogin(OidPrefix + ShowNat(|fields|) + "." + Join(fields, ".")) == Err(CodeChar(fields[k]).fault)
  {
    DecodeJoinedFields(|fields|, fields);
    FieldsToLoginSpec(fields);
    var r := FieldsToLogin(fields);
    var k' :| 0 <= k' < |fields| && FirstBad(fields, k') && CodeChar(fields[k']) == Err(r.fault);
    assert k' == k;
  }

  // ------------------------------------------------------------- line text

  /** What `redbackVlanFind` returns: the int `0`, or the text of a line. */
  datatype LineInfo = Unclassified | Vlan(text: string)

  /**
   * `redbackVlanFind`: `0` for an L2TP LNS session, otherwise the part before the
   * first `:` of the fifth blank-separated token.
   */
  function RedbackVlanFind(payload: string): (r: Result<LineInfo>)
    ensures r == Ok(Unclassified) <==> Contains(payload, LnsMarker)
    ensures r.Err? <==> !Contains(payload, LnsMarker) && |Tokens(payload)| < 5
    ensures r.Err? ==> r.fault == IndexError
  {
    if Contains(payload, LnsMarker) then Ok(Unclassified)
    else
      var tokens := Tokens(payload);
      if |tokens| < 5 then Err(IndexError)
      else Ok(Vlan(SplitMax(tokens[4], ":", -1)[0]))
  }

  /**
   * Any payload without the LNS marker whose fifth token, however the tokens are
   * spaced, is `line` or `line:rest` reports `line`.
   */
  lemma VlanOfFifthToken(payload: string, line: string, rest: string)
    requires !Contains(payload, LnsMarker) && |Tokens(payload)| >= 5 && ':' !in line
    requires Tokens(payload)[4] == line + ":" + rest || (Tokens(payload)[4] == line && rest == "")
    ensures RedbackVlanFind(payload) == Ok(Vlan(line))
  {
    if Tokens(payload)[4] == line + ":" + rest {
      SplitAtFirst(line, ':', rest, -1);
    } else {
      SplitWithout(line, ':', -1);
    }
  }

  /**
   * A payload of words joined by single spaces, the fifth of them `line` or
   * `line:rest`, reports `line`.
   */
  lemma VlanOfFifthWord(words: seq<string>, line: string, rest: string)
    requires |words| >= 5 && forall k :: 0 <= k < |words| ==> IsWord(words[k])
    requires ':' !in line
    requires words[4] == line + ":" + rest || (words[4] == line && rest == "")
    requires !Contains(Join(words, " "), LnsMarker)
    ensures RedbackVlanFind(Join(words, " ")) == Ok(Vlan(line))
  {
    TokensOfJoin(words);
    VlanOfFifthToken(Join(words, " "), line, rest);
  }

  // ----------------------------------------------------------------- realm

  /** The realm expression of `redbackSNMPWalk`: labels 1..2 of the part after `@`. */
  function RedbackRealm(user: string): (r: Result<string>)
    ensures r.Err? ==> r.fault == IndexError
  {
    var parts := SplitMax(user, "@", -1);
    if |parts| < 2 then Err(IndexError)
    else Ok(Join(Slice1To3(SplitMax(parts[1], ".", -1)), "."))
  }

  /** The realm is found exactly when the username holds an `@`. */
  lemma RealmNeedsAt(user: string)
    ensures RedbackRealm(user).Ok? <==> '@' in user
  {
    SplitFindsSeparator(user, '@');
  }

  /**
   * For `local@l0.l1.l2...` the realm is `l1.l2`; with fewer labels it is what is
   * left of them (`l1`, or empty).
   */
  lemma RealmOfDomain(local: string, labels: seq<string>)
    requires |labels| >= 1 && '@' !in local && Avoids(labels, '@') && Avoids(labels, '.')
    ensures RedbackRealm(local + "@" + Join(labels, ".")) == Ok(Join(Slice1To3(labels), "."))
  {
    var domain := Join(labels, ".");
    JoinAvoids(labels, '.', '@');
    SplitAtFirst(local, '@', domain, -1);
    SplitWithout(domain, '@', -1);
    SplitJoin(labels, '.', -1);
  }

  // ----------------------------------------------------------- walk entries

  /**
   * One pass of the `redbackSNMPWalk` loop body for payload `payload` and tag index
   * `i`: the line lookup, the username, the realm, then the row tuple. An unreported
   * line falls back to the realm classifier.
   */
  function RedbackEntry(types: seq<TypeEntry>, tags: seq<string>, i: nat, payload: string, now: int): (r: Result<Login>)
    ensures r.Ok? <==> RedbackVlanFind(payload).Ok? && i < |tags| && DecodeLogin(tags[i]).Ok? &&
                       RedbackRealm(DecodeLogin(tags[i]).value).Ok?
    ensures r.Ok? ==> SeenAt(r.value, now) && r.value.user == DecodeLogin(tags[i]).value
    ensures r.Ok? ==> Contains(payload, LnsMarker) ==> r.value.subtype == Classified(types, RedbackRealm(r.value.user).value)
    ensures r.Ok? ==> !Contains(payload, LnsMarker) ==> r.value.subtype == Line(RedbackVlanFind(payload).value.text)
  {
    match RedbackVlanFind(payload)
    case Err(f) => Err(f)
    case Ok(line) =>
      if i >= |tags| then Err(IndexError)
      else
        match DecodeLogin(tags[i])
        case Err(f) => Err(f)
        case Ok(user) =>
          match RedbackRealm(user)
          case Err(f) => Err(f)
          case Ok(realm) =>
            var subtype := match line
              case Vlan(text) => Line(text)
              case Unclassified => Classified(types, realm);
            Ok(Seen(user, subtype, now))
  }

  /** An entry whose line, username and realm are all read builds its tuple from them. */
  lemma EntryOfParts(types: seq<TypeEntry>, tags: seq<string>, i: nat, payload: string, now: int,
                     line: LineInfo, user: string, realm: string)
    requires RedbackVlanFind(payload) == Ok(line) && i < |tags| && DecodeLogin(tags[i]) == Ok(user)
    requires RedbackRealm(user) == Ok(realm)
    ensures RedbackEntry(types, tags, i, payload, now) ==
      Ok(Seen(user, if line.Vlan? then Line(line.text) else Classified(types, realm), now))
  {
  }

  /** A username without `@` aborts the entry even when the router reports a line. */
  lemma EntryNeedsAt(types: seq<TypeEntry>, tags: seq<string>, i: nat, payload: string, now: int)
    requires i < |tags| && DecodeLogin(tags[i]).Ok? && '@' !in DecodeLogin(tags[i]).value
    requires RedbackVlanFind(payload).Ok?
    ensures RedbackEntry(types, tags, i, payload, now) == Err(IndexError)
  {
    RealmNeedsAt(DecodeLogin(tags[i]).value);
  }

  /**
   * An L2TP LNS session of `local@l0.l1.l2...` whose realm `l1.l2` is in the type
   * table is stored with that entry's vlan.
   */
  lemma LnsSessionTakesRealmVlan(types: seq<TypeEntry>, local: string, labels: seq<string>, payload: string,
                                 m: nat, now: int)
    requires |labels| >= 1 && '@' !in local && Avoids(labels, '@') && Avoids(labels, '.')
    requires Contains(payload, LnsMarker) && |local + "@" + Join(labels, ".")| <= SsizeMax
    requires FirstMatchAt(types, Join(Slice1To3(labels), "."), m)
    ensures var user := local + "@" + Join(labels, ".");
      RedbackEntry(types, [EncodeLogin(user)], 0, payload, now) == Ok(Seen(user, Code(types[m].vlan), now))
  {
    var user := local + "@" + Join(labels, ".");
    DecodeEncodeLogin(user);
    RealmOfDomain(local, labels);
    FirstEntryWins(types, Join(Slice1To3(labels), "."), m);
  }

  // ------------------------------------------------------------------ walk

  /** Rows collected by a walk and the exception that ended it, if any. */
  datatype Walk = Walk(records: seq<Login>, fault: Option<Fault>)

  /** The outcome of the loop body for each walked entry, in walk order. */
  function WalkEntries(types: seq<TypeEntry>, tags: seq<string>, payloads: seq<string>, now: int): (es: seq<Result<Login>>)
    ensures |es| == |payloads|
    ensures forall k :: 0 <= k < |payloads| ==> es[k] == RedbackEntry(types, tags, k, payloads[k], now)
  {
    seq(|payloads|, k requires 0 <= k < |payloads| => RedbackEntry(types, tags, k, payloads[k], now))
  }

  /** A loop without an exception handler over entry outcomes: the first fault ends it. */
  function RunUntilFault(es: seq<Result<Login>>): (w: Walk)
    ensures |w.records| <= |es|
    decreases |es|
  {
    if |es| == 0 then Walk([], None)
    else
      var w := RunUntilFault(es[..|es| - 1]);
      if w.fault.Some? then w
      else
        match es[|es| - 1]
        case Ok(l) => Walk(w.records + [l], None)
        case Err(f) => Walk(w.records, Some(f))
  }

  /** The whole `redbackSNMPWalk` loop over the walked (tag, payload) pairs. */
  function RedbackRun(types: seq<TypeEntry>, tags: seq<string>, payloads: seq<string>, now: int): (w: Walk)
    ensures |w.records| <= |payloads|
  {
    RunUntilFault(WalkEntries(types, tags, payloads, now))
  }

  /**
   * A loop without a handler keeps the rows of a prefix of the entries, each the row
   * of its entry; it runs to the end when no entry faults, and otherwise stops at the
   * first entry that does, with that entry's fault.
   */
  lemma {:induction false} RunStopsAtFirstFault(es: seq<Result<Login>>)
    ensures var w := RunUntilFault(es);
      (forall k :: 0 <= k < |w.records| ==> es[k] == Ok(w.records[k])) &&
      (w.fault.None? ==> |w.records| == |es|) &&
      (w.fault.Some? ==> |w.records| < |es| && es[|w.records|] == Err(w.fault.value))
    decreases |es|
  {
    if |es| > 0 {
      var init := es[..|es| - 1];
      RunStopsAtFirstFault(init);
      var prev := RunUntilFault(init);
      var w := RunUntilFault(es);
      if prev.fault.None? && es[|es| - 1].Ok? {
        assert w.records == prev.records + [es[|es| - 1].value];
        forall k | 0 <= k < |w.records| ensures es[k] == Ok(w.records[k]) {
          if k < |es| - 1 {
            assert es[k] == init[k];
          }
        }
      } else {
        forall k | 0 <= k < |w.records| ensures es[k] == Ok(w.records[k]) {
          assert es[k] == init[k];
        }
      }
    }
  }

  /** One more entry outcome extends an unfaulted run by exactly that entry. */
  lemma RunStep(es: seq<Result<Login>>, i: nat)
    requires i < |es| && RunUntilFault(es[..i]).fault.None?
    ensures var prev := RunUntilFault(es[..i]);
      RunUntilFault(es[..i + 1]) == match es[i]
        case Ok(l) => Walk(prev.records + [l], None)
        case Err(f) => Walk(prev.records, Some(f))
  {
    assert es[..i + 1][..i] == es[..i];
  }

  /** Once a run has faulted, later entries change nothing. */
  lemma {:induction false} RunFaultSticks(es: seq<Result<Login>>, i: nat)
    requires i <= |es| && RunUntilFault(es[..i]).fault.Some?
    ensures RunUntilFault(es) == RunUntilFault(es[..i])
    decreases |es| - i
  {
    if i == |es| {
      assert es[..i] == es;
    } else {
      var init := es[..|es| - 1];
      assert init[..i] == es[..i];
      RunFaultSticks(init, i);
    }
  }

  /** Every row of a walk is a tuple stamped with the round's time. */
  lemma WalkRowsSeenAt(types: seq<TypeEntry>, tags: seq<string>, payloads: seq<string>, now: int)
    ensures forall l :: l in RedbackRun(types, tags, payloads, now).records ==> SeenAt(l, now)
  {
    RunStopsAtFirstFault(WalkEntries(types, tags, payloads, now));
  }

  /** One bad entry among good ones loses it and every entry after it. */
  lemma WalkLosesRestAfterBadEntry(types: seq<TypeEntry>, tags: seq<string>, payloads: seq<string>, now: int, m: nat)
    requires m < |payloads|
    requires forall k :: 0 <= k < m ==> RedbackEntry(types, tags, k, payloads[k], now).Ok?
    requires RedbackEntry(types, tags, m, payloads[m], now).Err?
    ensures var w := RedbackRun(types, tags, payloads, now);
      |w.records| == m && w.fault == Some(RedbackEntry(types, tags, m, payloads[m], now).fault) &&
      forall k :: 0 <= k < m ==> w.records[k] == RedbackEntry(types, tags, k, payloads[k], now).value
  {
    RunStopsAtFirstFault(WalkEntries(types, tags, payloads, now));
  }
}
