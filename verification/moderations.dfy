/** The decision `check_moderation` (scripts/moderations.py) takes once the
    moderation service has answered: an unflagged prompt passes through
    unchanged; a flagged one is replaced by the names of the categories it
    violates, joined with " & ". The service call itself is replaced by its
    answer. */
module Moderations {
  import opened Text

  /** The first result of a moderation answer: the overall flag and the
      category dict, in the dict's key order. */
  datatype Verdict = Verdict(flagged: bool, categories: seq<(string, bool)>)

  /** Category names are dict keys, so they are unique. */
  predicate DistinctNames(cats: seq<(string, bool)>) {
    forall a, b :: 0 <= a < b < |cats| ==> cats[a].0 != cats[b].0
  }

  /** `infringements`: the names of the categories set to true, in key order. */
  function Infringements(cats: seq<(string, bool)>): (names: seq<string>)
    ensures |names| <= |cats|
  {
    if |cats| == 0 then []
    else (if cats[0].1 then [cats[0].0] else []) + Infringements(cats[1..])
  }

  /** A name is listed exactly when some category of that name is set. */
  lemma {:induction false} InfringementsMembers(cats: seq<(string, bool)>, name: string)
    ensures name in Infringements(cats) <==> exists i :: 0 <= i < |cats| && cats[i] == (name, true)
    decreases |cats|
  {
    if |cats| > 0 {
      InfringementsMembers(cats[1..], name);
      if exists i :: 0 <= i < |cats| && cats[i] == (name, true) {
        var i :| 0 <= i < |cats| && cats[i] == (name, true);
        if i > 0 { assert cats[1..][i - 1] == cats[i]; }
      }
      if exists i :: 0 <= i < |cats[1..]| && cats[1..][i] == (name, true) {
        var i :| 0 <= i < |cats[1..]| && cats[1..][i] == (name, true);
        assert cats[i + 1] == (name, true);
      }
    }
  }

  /** The names keep the key order: the list of a split dict is the two
      lists, one after the other. */
  lemma {:induction false} InfringementsConcat(a: seq<(string, bool)>, b: seq<(string, bool)>)
    ensures Infringements(a + b) == Infringements(a) + Infringements(b)
    decreases |a|
  {
    if |a| == 0 {
      assert a + b == b;
    } else {
      var h: seq<string> := if a[0].1 then [a[0].0] else [];
      assert (a + b)[0] == a[0] && (a + b)[1..] == a[1..] + b;
      assert Infringements(a + b) == h + Infringements(a[1..] + b);
      assert Infringements(a) == h + Infringements(a[1..]);
      InfringementsConcat(a[1..], b);
    }
  }

  /** Every set category is listed once for each time it appears, so with
      unique keys every listed name is listed once. */
  lemma {:induction false} InfringementsDistinct(cats: seq<(string, bool)>)
    requires DistinctNames(cats)
    ensures forall a, b :: 0 <= a < b < |Infringements(cats)| ==> Infringements(cats)[a] != Infringements(cats)[b]
    decreases |cats|
  {
    if |cats| > 0 {
      var rest := Infringements(cats[1..]);
      assert DistinctNames(cats[1..]);
      InfringementsDistinct(cats[1..]);
      if cats[0].1 {
        InfringementsMembers(cats[1..], cats[0].0);
        forall i | 0 <= i < |cats[1..]| ensures cats[1..][i] != (cats[0].0, true) {
          assert cats[1..][i] == cats[i + 1];
        }
        var names := [cats[0].0] + rest;
        forall a, b | 0 <= a < b < |names| ensures names[a] != names[b] {
          assert names[b] == rest[b - 1];
          if a > 0 { assert names[a] == rest[a - 1]; }
        }
      }
    }
  }

  /** `check_moderation` after the service answered. */
  function CheckModeration(prompt: string, v: Verdict): (r: string)
    ensures !v.flagged ==> r == prompt
    ensures v.flagged && Infringements(v.categories) != [] ==>
      |r| + |" & "| == Offset(Infringements(v.categories), " & ", |Infringements(v.categories)|)
    ensures v.flagged && Infringements(v.categories) == [] ==> r == ""
  {
    if v.flagged then
      var names := Infringements(v.categories);
      Join(names, " & ")
    else prompt
  }

  /** A flagged answer lists each violated category's name in key order:
      name `k` sits right after the `k` earlier names and their separators,
      followed by " & " unless it is the last. */
  lemma FlaggedListsNames(prompt: string, v: Verdict, k: nat)
    requires v.flagged && k < |Infringements(v.categories)|
    ensures var r, names := CheckModeration(prompt, v), Infringements(v.categories);
      var o := Offset(names, " & ", k);
      && o + |names[k]| <= |r|
      && r[o..o + |names[k]|] == names[k]
      && (k + 1 < |names| ==>
            Offset(names, " & ", k + 1) <= |r| && r[o + |names[k]|..Offset(names, " & ", k + 1)] == " & ")
  {
    JoinPlacesParts(Infringements(v.categories), " & ", k);
  }
}
