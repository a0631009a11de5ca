/** `linearSearch`: a walk over the registry collecting the records whose name
    and the query contain one another, in either direction. */
module Search {
  import opened Records
  import opened CStrings

  /** The test of `linearSearch`: `strstr(name, query) != NULL` or
      `strstr(query, name) != NULL`. Case-sensitive. */
  predicate Matches(med: Medication, query: string) {
    StrStr(med.name, query).Some? || StrStr(query, med.name).Some?
  }

  /** The matching relation stated without `strstr`: one string is a
      substring of the other. */
  predicate Related(med: Medication, query: string) {
    Contains(med.name, query) || Contains(query, med.name)
  }

  /** `linearSearch`: the matching records, walking the list from the head. */
  function LinearSearch(list: seq<Medication>, query: string): (r: seq<Medication>)
    ensures |r| <= |list|
    ensures forall i :: 0 <= i < |r| ==> Related(r[i], query)
    ensures forall i :: 0 <= i < |list| && Related(list[i], query) ==> list[i] in r
  {
    if |list| == 0 then []
    else
      var rest := LinearSearch(list[1..], query);
      assert list == [list[0]] + list[1..];
      assert forall i :: 1 <= i < |list| ==> list[i] == list[1..][i - 1];
      if Matches(list[0], query) then [list[0]] + rest else rest
  }

  /** The results keep list order: searching a list made of two parts gives
      the results of the first part, then those of the second. */
  lemma {:induction false} SearchKeepsListOrder(front: seq<Medication>, back: seq<Medication>, query: string)
    ensures LinearSearch(front + back, query) == LinearSearch(front, query) + LinearSearch(back, query)
    decreases |front|
  {
    if |front| > 0 {
      assert (front + back)[1..] == front[1..] + back;
      assert (front + back)[0] == front[0];
      SearchKeepsListOrder(front[1..], back, query);
      var head := if Matches(front[0], query) then [front[0]] else [];
      assert LinearSearch(front + back, query) == head + LinearSearch(front[1..] + back, query);
      assert LinearSearch(front, query) == head + LinearSearch(front[1..], query);
      assert head + (LinearSearch(front[1..], query) + LinearSearch(back, query))
          == head + LinearSearch(front[1..], query) + LinearSearch(back, query);
    } else {
      assert front + back == back;
    }
  }

  /** A single record is returned exactly when its name and the query are
      related by containment. */
  lemma SearchOneRecord(med: Medication, query: string)
    ensures LinearSearch([med], query) == if Related(med, query) then [med] else []
  {
  }

  /** The empty string is a substring of every string, so an empty query
      returns the whole list in list order. */
  lemma {:induction false} EmptyQueryMatchesAll(list: seq<Medication>)
    ensures LinearSearch(list, "") == list
  {
    if |list| > 0 {
      assert OccursAt("", list[0].name, 0);
      EmptyQueryMatchesAll(list[1..]);
      assert list == [list[0]] + list[1..];
    }
  }

  /** A record with an empty name matches every query. */
  lemma EmptyNameMatchesAll(med: Medication, query: string)
    requires med.name == ""
    ensures Related(med, query)
  {
    assert OccursAt("", query, 0);
  }

  /** "Zinc" contains "in", so a search for "in" returns it along with
      "Aspirin" and "Metformin". */
  lemma SearchInFindsZinc(metformin: Medication, zinc: Medication, aspirin: Medication)
    requires metformin.name == "Metformin" && zinc.name == "Zinc" && aspirin.name == "Aspirin"
    ensures LinearSearch([metformin, zinc, aspirin], "in") == [metformin, zinc, aspirin]
  {
    assert OccursAt("in", metformin.name, 7);
    assert OccursAt("in", zinc.name, 1);
    assert OccursAt("in", aspirin.name, 5);
    SearchOneRecord(metformin, "in");
    SearchOneRecord(zinc, "in");
    SearchOneRecord(aspirin, "in");
    SearchKeepsListOrder([metformin], [zinc, aspirin], "in");
    SearchKeepsListOrder([zinc], [aspirin], "in");
  }
}
