/**
  The customers service's sample data: seven characters stored in a slab,
  their friend lists given by slab key, and an index from the id text of each
  human to the human's key.
*/
module Customers {
  import opened Wrappers
  import opened Decimal
  import Slab

  /** The two `Gender` variants the dataset uses. */
  datatype Gender = Male | Female

  datatype CustomersChar = CustomersChar(
    id: string,
    name: string,
    friends: seq<Usize>,
    appearsIn: seq<Gender>,
    homePlanet: Option<string>,
    primaryFunction: Option<string>)

  const HumanIds: set<string> := {"1000", "1001", "1002", "1003", "1004"}

  const DroidIds: set<string> := {"2000", "2001"}

  /** Every friend is a stored character other than the one listing it. */
  ghost predicate FriendsInRange(chars: map<Usize, CustomersChar>) {
    forall k, i :: k in chars && 0 <= i < |chars[k].friends| ==>
      chars[k].friends[i] in chars && chars[k].friends[i] != k
  }

  /** No two stored characters share an id. */
  ghost predicate IdsDistinct(chars: map<Usize, CustomersChar>) {
    forall a, b :: a in chars && b in chars && a != b ==> chars[a].id != chars[b].id
  }

  /** Each character's friends, read as ids, are the ones `FriendTable` gives it. */
  ghost predicate FriendsAsListed(chars: map<Usize, CustomersChar>)
    requires FriendsInRange(chars)
  {
    forall k :: k in chars ==> IdsAt(chars, chars[k].friends) == FriendTable(chars[k].id)
  }

  /** The seven records `Customers::new` inserts, before any friend is set. */
  const LukeRecord := CustomersChar("1000", "Luke Skywalker", [], [], Some("Tatooine"), None)
  const VaderRecord := CustomersChar("1001", "Anakin Skywalker", [], [], Some("Tatooine"), None)
  const HanRecord := CustomersChar("1002", "Han Solo", [], [Male], None, None)
  const LeiaRecord := CustomersChar("1003", "Leia Organa", [], [Male], Some("Alderaa"), None)
  const TarkinRecord := CustomersChar("1004", "Wilhuff Tarkin", [], [Female, Male], None, None)
  const ThreepioRecord := CustomersChar("2000", "C-3PO", [], [Female], None, Some("Protocol"))
  const ArtooRecord := CustomersChar("2001", "R2-D2", [], [Female], None, Some("Astromech"))

  /** The record the dataset inserts for each id. */
  function Record(id: string): CustomersChar {
    if id == "1000" then LukeRecord
    else if id == "1001" then VaderRecord
    else if id == "1002" then HanRecord
    else if id == "1003" then LeiaRecord
    else if id == "1004" then TarkinRecord
    else if id == "2000" then ThreepioRecord
    else ArtooRecord
  }

  /** Apart from its friends, every character is the record listed for its id. */
  ghost predicate RecordsAsListed(chars: map<Usize, CustomersChar>) {
    forall k :: k in chars ==> chars[k].(friends := []) == Record(chars[k].id)
  }

  /** The friends, by id, that the dataset gives each character. */
  function FriendTable(id: string): seq<string> {
    if id == "1000" then ["1002", "1003", "2000", "2001"]
    else if id == "1001" then ["1004"]
    else if id == "1002" then ["1000", "1003", "2001"]
    else if id == "1003" then ["1000", "1002", "2000", "2001"]
    else if id == "1004" then ["1001"]
    else if id == "2000" then ["1000", "1002", "1003", "2001"]
    else if id == "2001" then ["1000", "1002", "1003"]
    else []
  }

  class Customers {
    var luke: Usize
    var artoo: Usize
    var chars: map<Usize, CustomersChar>
    var humanData: map<string, Usize>

    /**
      The shape `Customers::new` builds: `luke` and `artoo` name the
      characters "1000" and "2001", friend keys are in range, and
      `humanData` maps the id of each human, and only those, to the key of
      the character with that id.
    */
    ghost predicate Valid()
      reads this
    {
      && luke in chars && chars[luke].id == "1000"
      && artoo in chars && chars[artoo].id == "2001"
      && FriendsInRange(chars)
      && humanData.Keys == HumanIds
      && (forall s :: s in humanData ==> humanData[s] in chars && chars[humanData[s]].id == s)
      && (forall k :: k in chars && chars[k].id in humanData ==> humanData[chars[k].id] == k)
    }

    /** `Customers::new`. */
    constructor ()
      ensures Valid()
      ensures |chars| == 7 && IdsDistinct(chars)
      ensures (set k | k in chars :: chars[k].id) == HumanIds + DroidIds
      ensures chars[luke].name == "Luke Skywalker" && chars[artoo].name == "R2-D2"
      ensures FriendsAsListed(chars)
      ensures RecordsAsListed(chars)
    {
      var cs, luke, vader, han, leia, tarkin, threepio, artoo := NewTable();
      var humans := map["1000" := luke, "1001" := vader, "1002" := han, "1003" := leia, "1004" := tarkin];

      this.luke := luke;
      this.artoo := artoo;
      this.chars := cs;
      this.humanData := humans;
      new;
      BuiltFriendsInRange(cs, luke, vader, han, leia, tarkin, threepio, artoo);
      BuiltIdsDistinct(cs, luke, vader, han, leia, tarkin, threepio, artoo);
      BuiltIds(cs, luke, vader, han, leia, tarkin, threepio, artoo);
      BuiltIndex(cs, humans, luke, vader, han, leia, tarkin, threepio, artoo);
      BuiltFriendTable(cs, luke, vader, han, leia, tarkin, threepio, artoo);
      BuiltRecords(cs, luke, vader, han, leia, tarkin, threepio, artoo);
    }

    /** `Customers::human`: the key of the human with this id, if there is one. */
    function Human(id: string): (r: Option<Usize>)
      reads this
      ensures Valid() ==> (r.Some? <==> id in HumanIds)
      ensures Valid() && r.Some? ==> r.value in chars && chars[r.value].id == id
    {
      if id in humanData then Some(humanData[id]) else None
    }

    /** `Customers::humans`: the key of every human once, in the map's own order. */
    method Humans() returns (r: seq<Usize>)
      ensures |r| == |humanData|
      ensures forall s :: s in humanData ==> humanData[s] in r
      ensures forall i :: 0 <= i < |r| ==> r[i] in humanData.Values
      ensures Injective(humanData) ==> AllDifferent(r)
    {
      var left := humanData.Keys;
      ghost var done: seq<string> := [];
      r := [];
      while left != {}
        invariant left <= humanData.Keys
        invariant |done| == |r| && |r| + |left| == |humanData|
        invariant forall i :: 0 <= i < |r| ==> done[i] in humanData && r[i] == humanData[done[i]]
        invariant forall i :: 0 <= i < |done| ==> done[i] !in left
        invariant forall i, j :: 0 <= i < j < |done| ==> done[i] != done[j]
        invariant forall s :: s in humanData && s !in left ==> s in done
        decreases left
      {
        var s :| s in left;
        r := r + [humanData[s]];
        done := done + [s];
        left := left - {s};
      }
      if Injective(humanData) {
        DistinctValues(humanData, done, r);
      }
    }
  }

  /** Looking a human up by id finds the record the dataset lists for that id. */
  lemma HumanRecord(c: Customers, id: string)
    requires c.Valid() && RecordsAsListed(c.chars) && id in HumanIds
    ensures c.Human(id).Some? && c.chars[c.Human(id).value].(friends := []) == Record(id)
  {
    var k := c.Human(id).value;
    assert c.chars[k].id == id;
  }

  /** On the built dataset, "1002" finds Han Solo, "1003" is from Alderaa, and "2000" is no human. */
  lemma LookupExamples(c: Customers)
    requires c.Valid() && RecordsAsListed(c.chars)
    ensures c.Human("1002").Some? && c.chars[c.Human("1002").value].name == "Han Solo"
    ensures c.Human("1003").Some? && c.chars[c.Human("1003").value].homePlanet == Some("Alderaa")
    ensures c.Human("2000") == None
  {
    HumanRecord(c, "1002");
    HumanRecord(c, "1003");
  }

  /** The keys the index holds are exactly those of the characters whose id is a human id. */
  lemma HumanKeys(c: Customers)
    requires c.Valid()
    ensures c.humanData.Values == set k | k in c.chars && c.chars[k].id in HumanIds
  {
    forall k | k in c.chars && c.chars[k].id in HumanIds
      ensures k in c.humanData.Values
    {
      assert c.humanData[c.chars[k].id] == k;
    }
  }

  /** Under `Valid`, distinct human ids are indexed at distinct keys. */
  lemma IndexInjective(c: Customers)
    requires c.Valid()
    ensures Injective(c.humanData)
  {
    forall s, t | s in c.humanData && t in c.humanData && c.humanData[s] == c.humanData[t]
      ensures s == t
    {
      assert c.chars[c.humanData[s]].id == s;
    }
  }

  predicate Injective(m: map<string, Usize>) {
    forall s, t :: s in m && t in m && s != t ==> m[s] != m[t]
  }

  /** Reading distinct keys of an injective map gives distinct values. */
  lemma DistinctValues(m: map<string, Usize>, done: seq<string>, r: seq<Usize>)
    requires Injective(m)
    requires |done| == |r| && forall i :: 0 <= i < |r| ==> done[i] in m && r[i] == m[done[i]]
    requires forall i, j :: 0 <= i < j < |done| ==> done[i] != done[j]
    ensures AllDifferent(r)
  {
    forall i, j | 0 <= i < j < |r|
      ensures r[i] != r[j]
    {
      assert done[i] != done[j];
    }
  }

  predicate AllDifferent(ks: seq<Usize>) {
    forall i, j :: 0 <= i < j < |ks| ==> ks[i] != ks[j]
  }

  /** The table `Customers::new` builds, under the keys the slab chose. */
  ghost predicate Built(cs: map<Usize, CustomersChar>,
                        luke: Usize, vader: Usize, han: Usize, leia: Usize, tarkin: Usize, threepio: Usize, artoo: Usize)
  {
    && AllDifferent([luke, vader, han, leia, tarkin, threepio, artoo])
    && cs.Keys == {luke, vader, han, leia, tarkin, threepio, artoo} && |cs| == 7
    && cs[luke] == LukeRecord.(friends := [han, leia, threepio, artoo])
    && cs[vader] == VaderRecord.(friends := [tarkin])
    && cs[han] == HanRecord.(friends := [luke, leia, artoo])
    && cs[leia] == LeiaRecord.(friends := [luke, han, threepio, artoo])
    && cs[tarkin] == TarkinRecord.(friends := [vader])
    && cs[threepio] == ThreepioRecord.(friends := [luke, han, leia, artoo])
    && cs[artoo] == ArtooRecord.(friends := [luke, han, leia])
  }

  /** The seven insertions and the friend patches of `Customers::new`. */
  method NewTable() returns (cs: map<Usize, CustomersChar>,
                             luke: Usize, vader: Usize, han: Usize, leia: Usize, tarkin: Usize, threepio: Usize, artoo: Usize)
    ensures Built(cs, luke, vader, han, leia, tarkin, threepio, artoo)
  {
    cs := map[];
    cs, luke := Slab.Insert(cs, LukeRecord);
    cs, vader := Slab.Insert(cs, VaderRecord);
    cs, han := Slab.Insert(cs, HanRecord);
    cs, leia := Slab.Insert(cs, LeiaRecord);
    cs, tarkin := Slab.Insert(cs, TarkinRecord);
    cs, threepio := Slab.Insert(cs, ThreepioRecord);
    cs, artoo := Slab.Insert(cs, ArtooRecord);

    cs := cs[luke := cs[luke].(friends := [han, leia, threepio, artoo])];
    cs := cs[vader := cs[vader].(friends := [tarkin])];
    cs := cs[han := cs[han].(friends := [luke, leia, artoo])];
    cs := cs[leia := cs[leia].(friends := [luke, han, threepio, artoo])];
    cs := cs[tarkin := cs[tarkin].(friends := [vader])];
    cs := cs[threepio := cs[threepio].(friends := [luke, han, leia, artoo])];
    cs := cs[artoo := cs[artoo].(friends := [luke, han, leia])];
  }

  lemma BuiltFriendsInRange(cs: map<Usize, CustomersChar>,
                            luke: Usize, vader: Usize, han: Usize, leia: Usize, tarkin: Usize, threepio: Usize, artoo: Usize)
    requires Built(cs, luke, vader, han, leia, tarkin, threepio, artoo)
    ensures FriendsInRange(cs)
  {
    var ks := [luke, vader, han, leia, tarkin, threepio, artoo];
    forall k, i | k in cs && 0 <= i < |cs[k].friends|
      ensures cs[k].friends[i] in cs && cs[k].friends[i] != k
    {
      assert ks[0] != ks[2] && ks[0] != ks[3] && ks[0] != ks[5] && ks[0] != ks[6];
      assert ks[1] != ks[4] && ks[2] != ks[3] && ks[2] != ks[6] && ks[3] != ks[5];
      assert ks[3] != ks[6] && ks[5] != ks[6] && ks[2] != ks[5] && ks[3] != ks[4];
    }
  }

  /** Which of the seven keys holds the character with this id. */
  function KeyOf(id: string,
                 luke: Usize, vader: Usize, han: Usize, leia: Usize, tarkin: Usize, threepio: Usize, artoo: Usize): Usize
  {
    if id == "1000" then luke else if id == "1001" then vader else if id == "1002" then han
    else if id == "1003" then leia else if id == "1004" then tarkin else if id == "2000" then threepio
    else artoo
  }

  lemma BuiltKeyOf(cs: map<Usize, CustomersChar>,
                   luke: Usize, vader: Usize, han: Usize, leia: Usize, tarkin: Usize, threepio: Usize, artoo: Usize,
                   k: Usize)
    requires Built(cs, luke, vader, han, leia, tarkin, threepio, artoo) && k in cs
    ensures cs[k].id in HumanIds + DroidIds
    ensures KeyOf(cs[k].id, luke, vader, han, leia, tarkin, threepio, artoo) == k
  {
  }

  lemma BuiltIdsDistinct(cs: map<Usize, CustomersChar>,
                         luke: Usize, vader: Usize, han: Usize, leia: Usize, tarkin: Usize, threepio: Usize, artoo: Usize)
    requires Built(cs, luke, vader, han, leia, tarkin, threepio, artoo)
    ensures IdsDistinct(cs)
  {
    forall a, b | a in cs && b in cs && a != b
      ensures cs[a].id != cs[b].id
    {
      BuiltKeyOf(cs, luke, vader, han, leia, tarkin, threepio, artoo, a);
      BuiltKeyOf(cs, luke, vader, han, leia, tarkin, threepio, artoo, b);
    }
  }

  lemma BuiltIds(cs: map<Usize, CustomersChar>,
                 luke: Usize, vader: Usize, han: Usize, leia: Usize, tarkin: Usize, threepio: Usize, artoo: Usize)
    requires Built(cs, luke, vader, han, leia, tarkin, threepio, artoo)
    ensures (set k | k in cs :: cs[k].id) == HumanIds + DroidIds
  {
    var ids := set k | k in cs :: cs[k].id;
    forall x | x in ids
      ensures x in HumanIds + DroidIds
    {
      var k :| k in cs && cs[k].id == x;
      BuiltKeyOf(cs, luke, vader, han, leia, tarkin, threepio, artoo, k);
    }
    forall x | x in HumanIds + DroidIds
      ensures x in ids
    {
      var k := KeyOf(x, luke, vader, han, leia, tarkin, threepio, artoo);
      assert cs[k].id == x;
    }
  }

  lemma BuiltIndex(cs: map<Usize, CustomersChar>, humans: map<string, Usize>,
                   luke: Usize, vader: Usize, han: Usize, leia: Usize, tarkin: Usize, threepio: Usize, artoo: Usize)
    requires Built(cs, luke, vader, han, leia, tarkin, threepio, artoo)
    requires humans == map["1000" := luke, "1001" := vader, "1002" := han, "1003" := leia, "1004" := tarkin]
    ensures humans.Keys == HumanIds
    ensures forall s :: s in humans ==> humans[s] in cs && cs[humans[s]].id == s
    ensures forall k :: k in cs && cs[k].id in humans ==> humans[cs[k].id] == k
  {
    assert cs[luke].id == "1000" && cs[vader].id == "1001" && cs[han].id == "1002";
    assert cs[leia].id == "1003" && cs[tarkin].id == "1004";
    forall k | k in cs && cs[k].id in humans
      ensures humans[cs[k].id] == k
    {
      BuiltKeyOf(cs, luke, vader, han, leia, tarkin, threepio, artoo, k);
    }
  }

  /** The ids of the characters at the keys `fs`. */
  function IdsAt(cs: map<Usize, CustomersChar>, fs: seq<Usize>): seq<string>
    requires forall i :: 0 <= i < |fs| ==> fs[i] in cs
  {
    seq(|fs|, i requires 0 <= i < |fs| => cs[fs[i]].id)
  }

  lemma BuiltRecords(cs: map<Usize, CustomersChar>,
                     luke: Usize, vader: Usize, han: Usize, leia: Usize, tarkin: Usize, threepio: Usize, artoo: Usize)
    requires Built(cs, luke, vader, han, leia, tarkin, threepio, artoo)
    ensures RecordsAsListed(cs)
  {
    forall k | k in cs
      ensures cs[k].(friends := []) == Record(cs[k].id)
    {
      BuiltKeyOf(cs, luke, vader, han, leia, tarkin, threepio, artoo, k);
    }
  }

  lemma IdsAtAre(cs: map<Usize, CustomersChar>, fs: seq<Usize>, ids: seq<string>)
    requires |fs| == |ids| && forall i :: 0 <= i < |fs| ==> fs[i] in cs && cs[fs[i]].id == ids[i]
    ensures IdsAt(cs, fs) == ids
  {
  }

  lemma BuiltFriendTable(cs: map<Usize, CustomersChar>,
                         luke: Usize, vader: Usize, han: Usize, leia: Usize, tarkin: Usize, threepio: Usize, artoo: Usize)
    requires Built(cs, luke, vader, han, leia, tarkin, threepio, artoo) && FriendsInRange(cs)
    ensures FriendsAsListed(cs)
  {
    forall k | k in cs
      ensures IdsAt(cs, cs[k].friends) == FriendTable(cs[k].id)
    {
      if k == luke {
        IdsAtAre(cs, [han, leia, threepio, artoo], ["1002", "1003", "2000", "2001"]);
      } else if k == vader {
        IdsAtAre(cs, [tarkin], ["1004"]);
      } else if k == han {
        IdsAtAre(cs, [luke, leia, artoo], ["1000", "1003", "2001"]);
      } else if k == leia {
        IdsAtAre(cs, [luke, han, threepio, artoo], ["1000", "1002", "2000", "2001"]);
      } else if k == tarkin {
        IdsAtAre(cs, [vader], ["1001"]);
      } else if k == threepio {
        IdsAtAre(cs, [luke, han, leia, artoo], ["1000", "1002", "1003", "2001"]);
      } else {
        IdsAtAre(cs, [luke, han, leia], ["1000", "1002", "1003"]);
      }
    }
  }

  /**
    The index agrees with the table: a character is found by its own id
    exactly when it is a human, and droids are never found.
  */
  lemma HumanIndexConsistent(c: Customers, k: Usize)
    requires c.Valid() && k in c.chars
    ensures c.Human(c.chars[k].id) == Some(k) <==> c.chars[k].id in HumanIds
    ensures c.Human("2000") == None && c.Human("2001") == None
  {
  }
}
