/** The two Python `str` methods the core relies on: `replace` and `join`. */
module Text {

  /** `pat` occurs in `s` starting at position `i`. */
  predicate OccursAt(s: string, pat: string, i: nat) {
    i + |pat| <= |s| && s[i..i + |pat|] == pat
  }

  /** `s.replace(pat, rep)`: a left-to-right scan that replaces every
      non-overlapping occurrence of `pat`. */
  function Replace(s: string, pat: string, rep: string): (r: string)
    requires |pat| > 0
    ensures |rep| <= |pat| ==> |r| <= |s|
    ensures (forall i: nat :: !OccursAt(s, pat, i)) ==> r == s
    decreases |s|
  {
    if |s| < |pat| then s
    else if s[..|pat|] == pat then
      assert OccursAt(s, pat, 0);
      rep + Replace(s[|pat|..], pat, rep)
    else
      assert forall i: nat :: OccursAt(s[1..], pat, i) ==> OccursAt(s, pat, i + 1);
      [s[0]] + Replace(s[1..], pat, rep)
  }

  /** When the replacement is shorter than the pattern, a text that holds
      the pattern somewhere comes out strictly shorter. */
  lemma {:induction false} ReplaceShrinks(s: string, pat: string, rep: string, k: nat)
    requires |pat| > 0 && |rep| < |pat|
    requires OccursAt(s, pat, k)
    ensures |Replace(s, pat, rep)| < |s|
    decreases |s|
  {
    if s[..|pat|] == pat {
      assert Replace(s, pat, rep) == rep + Replace(s[|pat|..], pat, rep);
    } else {
      assert k > 0;
      assert s[1..][k - 1..k - 1 + |pat|] == s[k..k + |pat|];
      ReplaceShrinks(s[1..], pat, rep, k - 1);
      assert Replace(s, pat, rep) == [s[0]] + Replace(s[1..], pat, rep);
    }
  }

  /** Replacing a single character distributes over concatenation. */
  lemma {:induction false} ReplaceCharConcat(a: string, b: string, c: char, rep: string)
    ensures Replace(a + b, [c], rep) == Replace(a, [c], rep) + Replace(b, [c], rep)
    decreases |a|
  {
    if |a| == 0 {
      assert a + b == b;
    } else {
      assert (a + b)[1..] == a[1..] + b;
      assert (a + b)[..1] == a[..1];
      ReplaceCharConcat(a[1..], b, c, rep);
    }
  }

  /** A character that is in neither the input nor the replacement text
      is not in the output. */
  lemma {:induction false} ReplaceKeepsOut(s: string, pat: string, rep: string, d: char)
    requires |pat| > 0
    requires d !in s && d !in rep
    ensures d !in Replace(s, pat, rep)
    decreases |s|
  {
    if |s| < |pat| {
    } else if s[..|pat|] == pat {
      ReplaceKeepsOut(s[|pat|..], pat, rep, d);
    } else {
      ReplaceKeepsOut(s[1..], pat, rep, d);
    }
  }

  /** Replacing a single character `c` by a text without `c` leaves no `c`. */
  lemma {:induction false} ReplaceCharRemovesAll(s: string, c: char, rep: string)
    requires c !in rep
    ensures c !in Replace(s, [c], rep)
    decreases |s|
  {
    if |s| < 1 {
    } else if s[..1] == [c] {
      ReplaceCharRemovesAll(s[1..], c, rep);
    } else {
      assert s[0] != c;
      ReplaceCharRemovesAll(s[1..], c, rep);
    }
  }

  /** Replacing one character by one character keeps positions. */
  lemma {:induction false} ReplaceCharPointwise(s: string, c: char, d: char)
    ensures |Replace(s, [c], [d])| == |s|
    ensures forall k :: 0 <= k < |s| ==>
      Replace(s, [c], [d])[k] == (if s[k] == c then d else s[k])
    decreases |s|
  {
    if |s| > 0 {
      ReplaceCharPointwise(s[1..], c, d);
      assert s[..1] == [c] <==> s[0] == c;
    }
  }

  /** One left-to-right pass of `"  "` -> `" "` over a run of k spaces pairs
      them off without overlap, so ceil(k / 2) spaces remain. */
  lemma {:induction false} ReplaceSpaceRun(k: nat)
    ensures Replace(seq(k, _ => ' '), "  ", " ") == seq((k + 1) / 2, _ => ' ')
    decreases k
  {
    var s := seq(k, _ => ' ');
    if k >= 2 {
      ReplaceSpaceRun(k - 2);
      assert s[..2] == "  " && s[2..] == seq(k - 2, _ => ' ');
      assert " " + seq((k - 1) / 2, _ => ' ') == seq((k + 1) / 2, _ => ' ');
    }
  }

  /** `sep.join(parts)`: the parts with one separator between each two, so
      as long as the parts and the separators between them. */
  function Join(parts: seq<string>, sep: string): (r: string)
    ensures |parts| > 0 ==> |r| + |sep| == Offset(parts, sep, |parts|)
    decreases |parts|
  {
    if |parts| == 0 then ""
    else if |parts| == 1 then parts[0]
    else
      OffsetShift(parts, sep, |parts|);
      parts[0] + sep + Join(parts[1..], sep)
  }

  /** Where part `i` starts inside `Join(parts, sep)`: every earlier part and
      its separator come before it. */
  function Offset(parts: seq<string>, sep: string, i: nat): nat
    requires i <= |parts|
  {
    if i == 0 then 0 else Offset(parts, sep, i - 1) + |parts[i - 1]| + |sep|
  }

  lemma {:induction false} OffsetShift(parts: seq<string>, sep: string, i: nat)
    requires 0 < i <= |parts|
    ensures Offset(parts, sep, i) == |parts[0]| + |sep| + Offset(parts[1..], sep, i - 1)
  {
    if i > 1 {
      OffsetShift(parts, sep, i - 1);
    }
  }

  /** A slice that lies entirely in the right operand of a concatenation. */
  lemma SliceRight(a: string, b: string, x: nat, y: nat)
    requires x <= y <= |b|
    ensures (a + b)[|a| + x..|a| + y] == b[x..y]
  {
    assert forall k :: 0 <= k < y - x ==> (a + b)[|a| + x..|a| + y][k] == b[x..y][k];
  }

  /** Each part appears, unchanged and in order, at its offset in the joined
      text, and is followed by the separator unless it is the last one. */
  lemma JoinPlacesParts(parts: seq<string>, sep: string, i: nat)
    requires i < |parts|
    ensures Offset(parts, sep, i) + |parts[i]| <= |Join(parts, sep)|
    ensures Join(parts, sep)[Offset(parts, sep, i)..Offset(parts, sep, i) + |parts[i]|] == parts[i]
    ensures i + 1 < |parts| ==>
      && Offset(parts, sep, i + 1) <= |Join(parts, sep)|
      && Join(parts, sep)[Offset(parts, sep, i) + |parts[i]|..Offset(parts, sep, i + 1)] == sep
  {
    JoinPlacesPart(parts, sep, i);
    if i + 1 < |parts| {
      JoinPlacesSep(parts, sep, i);
    }
  }

  lemma {:induction false} JoinPlacesPart(parts: seq<string>, sep: string, i: nat)
    requires i < |parts|
    ensures Offset(parts, sep, i) + |parts[i]| <= |Join(parts, sep)|
    ensures Join(parts, sep)[Offset(parts, sep, i)..Offset(parts, sep, i) + |parts[i]|] == parts[i]
    decreases |parts|
  {
    if i == 0 {
      JoinPartFirst(parts, sep);
    } else {
      JoinPlacesPart(parts[1..], sep, i - 1);
      JoinPartStep(parts, sep, i);
    }
  }

  lemma JoinPartFirst(parts: seq<string>, sep: string)
    requires 0 < |parts|
    ensures |parts[0]| <= |Join(parts, sep)|
    ensures Join(parts, sep)[..|parts[0]|] == parts[0]
  {
    if |parts| > 1 {
      var rest := Join(parts[1..], sep);
      var head := parts[0] + sep;
      assert Join(parts, sep) == head + rest;
      assert (head + rest)[..|parts[0]|] == parts[0];
    }
  }

  /** Part `i` of `parts` is part `i - 1` of `parts[1..]`, moved right by the
      first part and its separator. */
  lemma JoinPartStep(parts: seq<string>, sep: string, i: nat)
    requires 0 < i < |parts|
    requires Offset(parts[1..], sep, i - 1) + |parts[1..][i - 1]| <= |Join(parts[1..], sep)|
    requires Join(parts[1..], sep)[Offset(parts[1..], sep, i - 1)..Offset(parts[1..], sep, i - 1) + |parts[1..][i - 1]|] == parts[1..][i - 1]
    ensures Offset(parts, sep, i) + |parts[i]| <= |Join(parts, sep)|
    ensures Join(parts, sep)[Offset(parts, sep, i)..Offset(parts, sep, i) + |parts[i]|] == parts[i]
  {
    var rest := Join(parts[1..], sep);
    var head := parts[0] + sep;
    assert Join(parts, sep) == head + rest;
    OffsetShift(parts, sep, i);
    var o := Offset(parts[1..], sep, i - 1);
    assert parts[1..][i - 1] == parts[i];
    assert Offset(parts, sep, i) == |head| + o;
    SliceRight(head, rest, o, o + |parts[i]|);
  }

  lemma {:induction false} JoinPlacesSep(parts: seq<string>, sep: string, i: nat)
    requires i + 1 < |parts|
    ensures Offset(parts, sep, i + 1) <= |Join(parts, sep)|
    ensures Join(parts, sep)[Offset(parts, sep, i) + |parts[i]|..Offset(parts, sep, i + 1)] == sep
    decreases |parts|
  {
    if i == 0 {
      JoinSepFirst(parts, sep);
    } else {
      JoinPlacesSep(parts[1..], sep, i - 1);
      JoinSepStep(parts, sep, i);
    }
  }

  lemma JoinSepFirst(parts: seq<string>, sep: string)
    requires 1 < |parts|
    ensures Offset(parts, sep, 1) <= |Join(parts, sep)|
    ensures Join(parts, sep)[|parts[0]|..Offset(parts, sep, 1)] == sep
  {
    var rest := Join(parts[1..], sep);
    var head := parts[0] + sep;
    assert Join(parts, sep) == head + rest;
    assert Offset(parts, sep, 1) == |head|;
    assert (head + rest)[|parts[0]|..|head|] == sep;
  }

  /** The separator after part `i` of `parts` is the one after part `i - 1`
      of `parts[1..]`, moved right by the first part and its separator. */
  lemma JoinSepStep(parts: seq<string>, sep: string, i: nat)
    requires 0 < i && i + 1 < |parts|
    requires Offset(parts[1..], sep, i) <= |Join(parts[1..], sep)|
    requires Join(parts[1..], sep)[Offset(parts[1..], sep, i - 1) + |parts[1..][i - 1]|..Offset(parts[1..], sep, i)] == sep
    ensures Offset(parts, sep, i + 1) <= |Join(parts, sep)|
    ensures Join(parts, sep)[Offset(parts, sep, i) + |parts[i]|..Offset(parts, sep, i + 1)] == sep
  {
    var rest := Join(parts[1..], sep);
    var head := parts[0] + sep;
    assert Join(parts, sep) == head + rest;
    OffsetShift(parts, sep, i);
    OffsetShift(parts, sep, i + 1);
    var x, y := Offset(parts[1..], sep, i - 1) + |parts[i]|, Offset(parts[1..], sep, i);
    assert parts[1..][i - 1] == parts[i];
    assert Offset(parts, sep, i) + |parts[i]| == |head| + x && Offset(parts, sep, i + 1) == |head| + y;
    SliceRight(head, rest, x, y);
  }
}
