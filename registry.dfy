/**
 * The registry cache: the roster read once from the store (dog name -> attributes) turned
 * into a map from minor id to dog name. Entries without a minor id are left out and
 * reported, one warning per entry.
 */
module Registry {
  import opened Common

  const MinorIdKey: string := "MinorId"

  /** Attributes of one roster entry; values are kept as text. */
  type Attributes = map<string, string>

  /** The minor ids the roster declares. */
  function DeclaredMinorIds(roster: map<string, Attributes>): set<string>
  {
    set name | name in roster && MinorIdKey in roster[name] :: roster[name][MinorIdKey]
  }

  /** The roster entries without a minor id. */
  function Unidentified(roster: map<string, Attributes>): set<string>
  {
    set name | name in roster && MinorIdKey !in roster[name]
  }

  /** `nameMap` sends each of its minor ids to a roster entry that declares that id. */
  ghost predicate Faithful(roster: map<string, Attributes>, nameMap: map<string, string>)
  {
    forall m :: m in nameMap ==>
      nameMap[m] in roster && MinorIdKey in roster[nameMap[m]] && roster[nameMap[m]][MinorIdKey] == m
  }

  /**
   * `build_dawg_name_map`: visits the roster entries in the dictionary's (unspecified)
   * order; an entry with a minor id is entered under it, a later entry with the same id
   * replacing an earlier one; an entry without one is reported in `missing`.
   */
  method BuildDawgNameMap(roster: map<string, Attributes>)
    returns (nameMap: map<string, string>, missing: seq<string>)
    ensures nameMap.Keys == DeclaredMinorIds(roster)
    ensures Faithful(roster, nameMap)
    ensures forall name :: name in roster && MinorIdKey !in roster[name] ==> name !in nameMap.Values
    ensures forall name :: name in missing <==> name in Unidentified(roster)
    ensures Distinct(missing) && |missing| == |Unidentified(roster)|
  {
    nameMap, missing := map[], [];
    var todo := roster.Keys;
    while todo != {}
      invariant todo <= roster.Keys
      invariant nameMap.Keys ==
        set name | name in roster && name !in todo && MinorIdKey in roster[name] :: roster[name][MinorIdKey]
      invariant Faithful(roster, nameMap)
      invariant forall name :: name in missing <==>
        name in roster && name !in todo && MinorIdKey !in roster[name]
      invariant Distinct(missing)
      decreases todo
    {
      var name :| name in todo;
      var info := roster[name];
      if MinorIdKey in info {
        nameMap := nameMap[info[MinorIdKey] := name];
      } else {
        missing := missing + [name];
      }
      todo := todo - {name};
    }
    assert Elements(missing) == Unidentified(roster);
    DistinctSize(missing);
  }

}
