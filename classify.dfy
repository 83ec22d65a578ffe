/** The realm classifier `loginClassify`. */
module Classify {
  import opened Results
  import opened Subscribers

  /**
   * `loginClassify`: scans the type table in order and returns the vlan of the first
   * entry whose realm equals `realm` exactly; `None` when no entry matches.
   */
  function LoginClassify(types: seq<TypeEntry>, realm: string): (r: Option<int>)
    ensures r.None? <==> forall k :: 0 <= k < |types| ==> types[k].realm != realm
    ensures r.Some? ==> exists i :: FirstMatchAt(types, realm, i) && types[i].vlan == r.value
    decreases |types|
  {
    if |types| == 0 then None
    else if types[0].realm == realm then Some(types[0].vlan)
    else
      var r := LoginClassify(types[1..], realm);
      assert r.Some? ==> exists i :: FirstMatchAt(types, realm, i) && types[i].vlan == r.value by {
        if r.Some? {
          var i :| FirstMatchAt(types[1..], realm, i) && types[1..][i].vlan == r.value;
          forall k | 1 <= k < i + 1 ensures types[k].realm != realm {
            assert types[k] == types[1..][k - 1];
          }
          assert FirstMatchAt(types, realm, i + 1);
        }
      }
      r
  }

  /** Is entry `i` the first one, in table order, whose realm is `realm`? */
  predicate FirstMatchAt(types: seq<TypeEntry>, realm: string, i: int) {
    0 <= i < |types| && types[i].realm == realm && forall k :: 0 <= k < i ==> types[k].realm != realm
  }

  /** The subtype stored for an unclassified login: the matched vlan, or `None`. */
  function Classified(types: seq<TypeEntry>, realm: string): (r: Subtype)
    ensures r == NoType <==> forall k :: 0 <= k < |types| ==> types[k].realm != realm
    ensures !r.Line?
    ensures r.Code? ==> exists i :: FirstMatchAt(types, realm, i) && types[i].vlan == r.n
  {
    match LoginClassify(types, realm)
    case Some(v) => Code(v)
    case None => NoType
  }

  /**
   * The first entry carrying the realm decides, whatever later entries say; this
   * follows from the contract of `LoginClassify` alone.
   */
  lemma FirstEntryWins(types: seq<TypeEntry>, realm: string, i: nat)
    requires FirstMatchAt(types, realm, i)
    ensures LoginClassify(types, realm) == Some(types[i].vlan)
    ensures Classified(types, realm) == Code(types[i].vlan)
  {
  }
}
