/** The state of a `ChromaDBPipeline` (scripts/chroma_utils.py) and the three
    operations that transform it: `filter_results`, `respond_with_db_results`
    and `execute_pipeline`. The calls into Nomic, Chroma and OpenAI are
    replaced by their answers, given as parameters. */
module ChromaPipeline {
  import opened Wrappers
  import opened Text
  import opened QueryResult
  import opened Threshold
  import opened Dedup
  import opened Ranking
  import opened Messages
  import StringUtils

  /** What `self.results` holds: nothing yet, the raw query answer, or the
      ranked dict `filter_results` left there. */
  datatype Results = NoResults | Raw(batches: seq<Batch>) | Ranked(items: seq<Item>)

  /** The fields `respond_with_db_results` extracts from a document's text with
      regular expressions; each may be missing. */
  datatype DocFields = DocFields(
    repoName: Option<string>,
    htmlUrl: Option<string>,
    repoDesc: Option<string>,
    modelSummary: Option<string>)

  /** One row of the export table: the `meta_dict` built for one result. */
  datatype ExportRow = ExportRow(
    searchTerms: string,
    orgName: string,
    repoName: Option<string>,
    htmlUrl: Option<string>,
    repoDesc: Option<string>,
    isPrivate: bool,
    isArchived: bool,
    language: string,
    updatedAt: string,
    distance: real,
    modelSummary: Option<string>)

  /** The attributes of `ChromaDBPipeline` the core reads and writes. */
  datatype Pipeline = Pipeline(
    totalRemoved: nat,
    chatUiResults: Option<string>,
    dataVintage: Option<string>,
    results: Results,
    currentKeywords: seq<string>,
    exportTable: seq<ExportRow>)

  /** `__init__`: nothing queried, nothing removed, an empty export table. */
  function Init(): (p: Pipeline)
    ensures p.totalRemoved == 0 && p.results == NoResults && p.exportTable == []
  {
    Pipeline(0, None, None, NoResults, [], [])
  }

  // ---------------------------------------------------------------------
  // filter_results
  // ---------------------------------------------------------------------

  /** The ranked dict before truncation: the threshold survivors merged by id
      and sorted by distance. */
  function SortedSurvivors(q: seq<Batch>, distThresh: real): seq<Item>
    requires WellFormed(q)
  {
    SortByDistance(Merge(Within(Flatten(q), distThresh)))
  }

  /** `filter_results`. On a raw query answer: deletes every entry above the
      threshold, merges by id, sorts by distance and truncates to
      `n_results`; `total_removed` restarts at 0 and counts exactly the
      threshold deletions and the truncated entries, never the merged
      duplicates; the result replaces `self.results`. */
  method FilterResults(p: Pipeline, distThresh: real, nResults: Option<int>) returns (r: Result<Pipeline>)
    requires p.results.Raw? ==> WellFormed(p.results.batches)
    ensures p.results.NoResults? ==> r == Err(AttributeError)
    ensures p.results.Ranked? ==> r == Err(TypeError)
    ensures p.results.Raw? ==>
      (r.Err? <==> nResults.Some? && nResults.value < 0) && (r.Err? ==> r.raised == ValueError)
    ensures r.Ok? ==> p.results.Raw? && r.value.results.Ranked?
    ensures r.Ok? ==> r.value == p.(totalRemoved := r.value.totalRemoved, results := r.value.results)
    ensures r.Ok? ==>
      var q, out := p.results.batches, r.value.results.items;
      var sorted := SortedSurvivors(q, distThresh);
      && |out| <= |sorted| && out == sorted[..|out|]
      && (nResults.Some? && nResults.value > 0 ==>
            |out| == if nResults.value < |sorted| then nResults.value else |sorted|)
      && (nResults == None || nResults == Some(0) ==> out == sorted)
      && r.value.totalRemoved == CountAbove(Flatten(q), distThresh) + (|sorted| - |out|)
  {
    match p.results
    case NoResults =>
      r := Err(AttributeError);
    case Ranked(_) =>
      r := Err(TypeError);
    case Raw(q) =>
      var filtered, removed := ThresholdPass(q, distThresh);
      var merged := Merge(Flatten(filtered));
      var sorted := SortByDistance(merged);
      match Truncate(sorted, nResults)
      case Err(e) =>
        r := Err(e);
      case Ok(out) =>
        r := Ok(p.(totalRemoved := removed + (|sorted| - |out|), results := Ranked(out)));
  }

  /** The first half of `execute_pipeline`: records the keywords, reads the
      data vintage from the collection name, stores the query answer and
      filters it with the same `n_results`. */
  method QueryAndFilter(
    p: Pipeline, keywords: seq<string>, nResults: int, distanceThreshold: real,
    collectionName: string, answer: seq<Batch>, formatVintage: string -> string)
    returns (r: Result<Pipeline>)
    requires WellFormed(answer)
    ensures r.Ok? <==> StringUtils.VintageFromStr(collectionName).Ok? && nResults >= 0
    ensures r.Err? ==> r.raised == if StringUtils.VintageFromStr(collectionName).Err? then TypeError else ValueError
    ensures r.Ok? ==>
      r.value == p.(currentKeywords := keywords,
                    dataVintage := Some(formatVintage(StringUtils.VintageFromStr(collectionName).value)),
                    totalRemoved := r.value.totalRemoved, results := r.value.results)
    ensures r.Ok? ==>
      var p', sorted := r.value, SortedSurvivors(answer, distanceThreshold);
      && p'.results.Ranked?
      && |p'.results.items| <= |sorted| && p'.results.items == sorted[..|p'.results.items|]
      && (nResults > 0 ==> |p'.results.items| == if nResults < |sorted| then nResults else |sorted|)
      && (nResults == 0 ==> p'.results.items == sorted)
      && p'.totalRemoved == CountAbove(Flatten(answer), distanceThreshold) + (|sorted| - |p'.results.items|)
  {
    var embedded := p.(currentKeywords := keywords);
    var vintage := StringUtils.VintageFromStr(collectionName);
    if vintage.Err? {
      return Err(vintage.raised);
    }
    var queried := embedded.(dataVintage := Some(formatVintage(vintage.value)), results := Raw(answer));
    r := FilterResults(queried, distanceThreshold, Some(nResults));
  }

  /** Each ranked entry is a surviving id, at or below the threshold, holding
      the value of its last occurrence among the survivors. */
  lemma {:induction false} RankedEntry(q: seq<Batch>, distThresh: real, a: nat)
    requires WellFormed(q)
    requires a < |SortedSurvivors(q, distThresh)|
    ensures var it, survivors := SortedSurvivors(q, distThresh)[a], Within(Flatten(q), distThresh);
      && it.id in RecordIds(survivors)
      && it.entry.distance <= distThresh
      && LastOf(survivors, it.id) == Some(it.entry)
  {
    var survivors := Within(Flatten(q), distThresh);
    var merged := Merge(survivors);
    var sorted := SortByDistance(merged);
    assert sorted[a] in sorted;
    SortMembers(merged, sorted[a]);
    var m :| 0 <= m < |merged| && merged[m] == sorted[a];
    assert Ids(merged)[m] == merged[m].id;
    LookupAt(merged, m);
    MergeKeepsLastValue(survivors, merged[m].id);
    LastOfIffPresent(survivors, merged[m].id);
    WithinPartition(Flatten(q), distThresh);
    LastOfDistance(survivors, distThresh, merged[m].id);
  }

  /** Ranked entries at equal distance appear in the order in which their ids
      first occurred among the survivors. */
  lemma {:induction false} RankedTie(q: seq<Batch>, distThresh: real, a: nat, b: nat)
    requires WellFormed(q)
    requires a < b < |SortedSurvivors(q, distThresh)|
    requires SortedSurvivors(q, distThresh)[a].entry.distance == SortedSurvivors(q, distThresh)[b].entry.distance
    ensures var sorted, ids := SortedSurvivors(q, distThresh), RecordIds(Within(Flatten(q), distThresh));
      && sorted[a].id in ids && sorted[b].id in ids
      && FirstIndex(ids, sorted[a].id) < FirstIndex(ids, sorted[b].id)
  {
    var survivors := Within(Flatten(q), distThresh);
    var merged := Merge(survivors);
    var sorted := SortByDistance(merged);
    var a', b' := SortTiesKeepOrder(merged, a, b);
    MergeKeepsFirstPosition(survivors, a', b');
  }

  /** What the ranked output of `filter_results` is, as a whole: unique ids,
      ascending distance, every entry a survivor with its last value, ties in
      order of first occurrence. */
  lemma RankedOutputFacts(q: seq<Batch>, distThresh: real, n: nat)
    requires WellFormed(q)
    requires n <= |SortedSurvivors(q, distThresh)|
    ensures var out, survivors := SortedSurvivors(q, distThresh)[..n], Within(Flatten(q), distThresh);
      && DistinctIds(out)
      && SortedByDistance(out)
      && (forall a :: 0 <= a < |out| ==>
            && out[a].id in RecordIds(survivors)
            && out[a].entry.distance <= distThresh
            && LastOf(survivors, out[a].id) == Some(out[a].entry))
      && (forall a, b :: 0 <= a < b < |out| && out[a].entry.distance == out[b].entry.distance ==>
            FirstIndex(RecordIds(survivors), out[a].id) < FirstIndex(RecordIds(survivors), out[b].id))
  {
    var sorted := SortedSurvivors(q, distThresh);
    var out := sorted[..n];
    SortKeepsDistinct(Merge(Within(Flatten(q), distThresh)));
    forall a | 0 <= a < |out|
      ensures var survivors := Within(Flatten(q), distThresh);
        && out[a].id in RecordIds(survivors)
        && out[a].entry.distance <= distThresh
        && LastOf(survivors, out[a].id) == Some(out[a].entry)
    {
      RankedEntry(q, distThresh, a);
    }
    forall a, b | 0 <= a < b < |out| && out[a].entry.distance == out[b].entry.distance
      ensures var ids := RecordIds(Within(Flatten(q), distThresh));
        out[a].id in ids && out[b].id in ids && FirstIndex(ids, out[a].id) < FirstIndex(ids, out[b].id)
    {
      RankedTie(q, distThresh, a, b);
    }
  }

  /** The value kept for an id comes from a record that passed the threshold. */
  lemma {:induction false} LastOfDistance(rs: seq<Record>, distThresh: real, id: string)
    requires forall j :: 0 <= j < |rs| ==> rs[j].distance <= distThresh
    ensures LastOf(rs, id).Some? ==> LastOf(rs, id).value.distance <= distThresh
    decreases |rs|
  {
    if |rs| > 0 {
      LastOfDistance(rs[..|rs| - 1], distThresh, id);
    }
  }

  // ---------------------------------------------------------------------
  // respond_with_db_results
  // ---------------------------------------------------------------------

  /** The `meta_dict` of one result. The regex extraction and the date
      rendering (which reads the clock once, before the loop) are given. */
  function MakeRow(keywords: seq<string>, it: Item, extract: string -> DocFields,
                   formatDate: real -> string): (row: ExportRow)
    ensures row.searchTerms == Join(keywords, ", ")
    ensures var m := it.entry.metadata;
      row.orgName == m.orgName && row.isPrivate == m.isPrivate && row.isArchived == m.isArchived
      && row.language == m.language && row.updatedAt == formatDate(m.updatedAt)
    ensures var f := extract(it.entry.document);
      row.repoName == f.repoName && row.htmlUrl == f.htmlUrl && row.repoDesc == f.repoDesc
      && row.modelSummary == f.modelSummary
    ensures row.distance == DistanceOf(it)
  {
    var f := extract(it.entry.document);
    var m := it.entry.metadata;
    ExportRow(Join(keywords, ", "), m.orgName, f.repoName, f.htmlUrl, f.repoDesc,
              m.isPrivate, m.isArchived, m.language, formatDate(m.updatedAt),
              it.entry.distance, f.modelSummary)
  }

  predicate IsBlank(c: char) {
    c == ' ' || c == '\n'
  }

  /** Two blanks side by side at `i`. */
  predicate BlankPairAt(s: string, i: nat) {
    i + 1 < |s| && IsBlank(s[i]) && IsBlank(s[i + 1])
  }

  /** The text with its spaces and newlines taken out, in order. */
  function Visible(s: string): string
  {
    if |s| == 0 then "" else (if IsBlank(s[0]) then "" else [s[0]]) + Visible(s[1..])
  }

  lemma {:induction false} VisibleCons(c: char, s: string)
    ensures Visible([c] + s) == (if IsBlank(c) then "" else [c]) + Visible(s)
  {
    assert ([c] + s)[0] == c && ([c] + s)[1..] == s;
  }

  /** Turning newlines into spaces changes no visible character. */
  lemma {:induction false} NewlinesKeepVisible(s: string)
    ensures Visible(Replace(s, "\n", " ")) == Visible(s)
    decreases |s|
  {
    if |s| > 0 {
      NewlinesKeepVisible(s[1..]);
      NewlineStep(s);
    }
  }

  lemma NewlineStep(s: string)
    requires |s| > 0
    requires Visible(Replace(s[1..], "\n", " ")) == Visible(s[1..])
    ensures Visible(Replace(s, "\n", " ")) == Visible(s)
  {
    var t := Replace(s[1..], "\n", " ");
    assert Visible(s) == (if IsBlank(s[0]) then "" else [s[0]]) + Visible(s[1..]);
    if s[..1] == "\n" {
      assert Replace(s, "\n", " ") == " " + t;
      VisibleCons(' ', t);
    } else {
      assert Replace(s, "\n", " ") == [s[0]] + t;
      VisibleCons(s[0], t);
    }
  }

  /** Collapsing two spaces into one changes no visible character. */
  lemma {:induction false} SpacesKeepVisible(s: string)
    ensures Visible(Replace(s, "  ", " ")) == Visible(s)
    decreases |s|
  {
    if |s| >= 2 {
      if s[..2] == "  " {
        SpacesKeepVisible(s[2..]);
        SpacePairStep(s);
      } else {
        SpacesKeepVisible(s[1..]);
        SpaceOtherStep(s);
      }
    }
  }

  lemma SpacePairStep(s: string)
    requires |s| >= 2 && s[..2] == "  "
    requires Visible(Replace(s[2..], "  ", " ")) == Visible(s[2..])
    ensures Visible(Replace(s, "  ", " ")) == Visible(s)
  {
    var t := Replace(s[2..], "  ", " ");
    assert |s| >= |"  "| && s[..|"  "|] == "  " && s[|"  "|..] == s[2..];
    assert Replace(s, "  ", " ") == " " + t;
    VisibleCons(' ', t);
    assert s[0] == s[..2][0] == ' ' && s[1] == s[..2][1] == ' ';
    assert Visible(s) == Visible(s[1..]);
    assert s[1..][1..] == s[2..];
    assert Visible(s[1..]) == Visible(s[2..]);
  }

  lemma SpaceOtherStep(s: string)
    requires |s| >= 2 && s[..2] != "  "
    requires Visible(Replace(s[1..], "  ", " ")) == Visible(s[1..])
    ensures Visible(Replace(s, "  ", " ")) == Visible(s)
  {
    var t := Replace(s[1..], "  ", " ");
    assert Replace(s, "  ", " ") == [s[0]] + t;
    VisibleCons(s[0], t);
    assert Visible(s) == (if IsBlank(s[0]) then "" else [s[0]]) + Visible(s[1..]);
  }

  /** The flattened text is one line with the same visible characters. */
  lemma Flatten1LineKeepsVisible(s: string)
    ensures var r := Replace(Replace(s, "\n", " "), "  ", " ");
      '\n' !in r && Visible(r) == Visible(s)
  {
    ReplaceCharRemovesAll(s, '\n', " ");
    ReplaceKeepsOut(Replace(s, "\n", " "), "  ", " ", '\n');
    NewlinesKeepVisible(s);
    SpacesKeepVisible(Replace(s, "\n", " "));
  }

  /** A one-line text without a double space goes through both `replace`
      calls unchanged. */
  lemma Flatten1LineUnchanged(s: string)
    ensures '\n' !in s && (forall i: nat :: !OccursAt(s, "  ", i)) ==>
      Replace(Replace(s, "\n", " "), "  ", " ") == s
  {
    if '\n' !in s {
      assert forall i: nat :: OccursAt(s, "\n", i) ==> s[i] == '\n';
    }
  }

  /** Two blanks in a row (spaces or newlines) are exactly what makes the
      flattened text shorter: the newlines become spaces one for one, and
      the second replace only shortens a text holding a double space. */
  lemma Flatten1LineShrinks(s: string)
    ensures |Replace(Replace(s, "\n", " "), "  ", " ")| < |s| <==>
      exists i: nat :: BlankPairAt(s, i)
  {
    if exists i: nat :: BlankPairAt(s, i) {
      var i: nat :| BlankPairAt(s, i);
      BlankPairShrinks(s, i);
    } else {
      NoBlankPairKeepsLength(s);
    }
  }

  /** A blank pair becomes a double space, which the second replace shortens. */
  lemma {:induction false} BlankPairShrinks(s: string, i: nat)
    requires BlankPairAt(s, i)
    ensures |Replace(Replace(s, "\n", " "), "  ", " ")| < |s|
  {
    var t := Replace(s, "\n", " ");
    ReplaceCharPointwise(s, '\n', ' ');
    assert t[i] == ' ' && t[i + 1] == ' ';
    assert t[i..i + 2] == "  ";
    ReplaceShrinks(t, "  ", " ", i);
  }

  /** Without a blank pair there is no double space left to collapse. */
  lemma {:induction false} NoBlankPairKeepsLength(s: string)
    requires forall i: nat :: !BlankPairAt(s, i)
    ensures |Replace(Replace(s, "\n", " "), "  ", " ")| == |s|
  {
    var t := Replace(s, "\n", " ");
    ReplaceCharPointwise(s, '\n', ' ');
    forall i: nat | i + 2 <= |t| ensures !OccursAt(t, "  ", i) {
      assert !BlankPairAt(s, i);
      assert t[i..i + 2][0] == t[i] && t[i..i + 2][1] == t[i + 1];
    }
    assert forall i: nat :: !OccursAt(t, "  ", i);
  }

  /** The final `.replace("\n", " ").replace("  ", " ")` on the prompt: one
      line, no longer than before, with every character other than a space
      or a newline kept in order, and strictly shorter exactly when two
      blanks stand side by side; a one-line text without a double space is
      left as it is. */
  function Flatten1Line(s: string): (r: string)
    ensures '\n' !in r
    ensures |r| <= |s|
    ensures Visible(r) == Visible(s)
    ensures '\n' !in s && (forall i: nat :: !OccursAt(s, "  ", i)) ==> r == s
    ensures |r| < |s| <==> exists i: nat :: BlankPairAt(s, i)
  {
    Flatten1LineKeepsVisible(s);
    Flatten1LineUnchanged(s);
    Flatten1LineShrinks(s);
    Replace(Replace(s, "\n", " "), "  ", " ")
  }

  /** The second `replace` makes a single non-overlapping pass: a run of k
      blanks becomes ceil(k / 2) spaces, so three blanks leave two spaces
      rather than one. */
  lemma {:induction false} Flatten1LineBlankRun(s: string)
    requires forall i :: 0 <= i < |s| ==> IsBlank(s[i])
    ensures Flatten1Line(s) == seq((|s| + 1) / 2, _ => ' ')
  {
    ReplaceCharPointwise(s, '\n', ' ');
    assert Replace(s, "\n", " ") == seq(|s|, _ => ' ');
    ReplaceSpaceRun(|s|);
  }

  /** Three blanks in a row flatten to two spaces. */
  lemma ThreeBlanksLeaveTwo()
    ensures Flatten1Line("   ") == "  "
    ensures Flatten1Line(" \n ") == "  "
  {
    Flatten1LineBlankRun("   ");
    assert seq(2, _ => ' ') == "  ";
    Flatten1LineBlankRun(" \n ");
  }

  /** `respond_with_db_results`: one export row appended per ranked result,
      in result order; the rendered blocks joined with "***" become
      `chat_ui_results`; the summary prompt is returned as a user message.
      Anything but a ranked dict in `self.results` raises `AttributeError`. */
  function RespondWithDbResults(
    p: Pipeline, sanitisedPrompt: string,
    extract: string -> DocFields, formatDate: real -> string,
    render: ExportRow -> string, metaPrompt: (string, string) -> string): (r: Result<(Pipeline, Message)>)
    ensures r.Err? <==> !p.results.Ranked?
    ensures r.Err? ==> r.raised == AttributeError
    ensures r.Ok? ==>
      var items, p', msg := p.results.items, r.value.0, r.value.1;
      && |p'.exportTable| == |p.exportTable| + |items|
      && p'.exportTable[..|p.exportTable|] == p.exportTable
      && (forall i :: 0 <= i < |items| ==>
            && p'.exportTable[|p.exportTable| + i] == MakeRow(p.currentKeywords, items[i], extract, formatDate)
            && p'.exportTable[|p.exportTable| + i].distance == items[i].entry.distance)
      && p'.chatUiResults.Some?
      && p'.chatUiResults.value ==
           Join(seq(|items|, i requires 0 <= i < |items| => render(p'.exportTable[|p.exportTable| + i])), "***")
      && p' == p.(exportTable := p'.exportTable, chatUiResults := p'.chatUiResults)
      && msg.role == "user"
      && msg.content == Flatten1Line(metaPrompt(sanitisedPrompt, p'.chatUiResults.value))
      && '\n' !in msg.content
  {
    match p.results
    case Ranked(items) =>
      var rows := seq(|items|, i requires 0 <= i < |items| =>
        MakeRow(p.currentKeywords, items[i], extract, formatDate));
      var blocks := seq(|items|, i requires 0 <= i < |items| => render(rows[i]));
      var repoResults := Join(blocks, "***");
      var table := p.exportTable + rows;
      assert table[..|p.exportTable|] == p.exportTable;
      assert seq(|items|, i requires 0 <= i < |items| => render(table[|p.exportTable| + i])) == blocks;
      Ok((p.(exportTable := table, chatUiResults := Some(repoResults)),
          Message("user", Flatten1Line(metaPrompt(sanitisedPrompt, repoResults)))))
    case _ => Err(AttributeError)
  }

  // ---------------------------------------------------------------------
  // execute_pipeline
  // ---------------------------------------------------------------------

  /** `execute_pipeline`: `QueryAndFilter`, then the response.
      The vector store's answer to the embedded keywords is the parameter
      `answer`; `formatVintage` is the `fromisoformat`/`strftime` rendering
      of the matched timestamp. */
  method ExecutePipeline(
    p: Pipeline, keywords: seq<string>, nResults: int, distanceThreshold: real,
    sanitisedPrompt: string, collectionName: string, answer: seq<Batch>,
    extract: string -> DocFields, formatDate: real -> string, formatVintage: string -> string,
    render: ExportRow -> string, metaPrompt: (string, string) -> string)
    returns (r: Result<(Pipeline, Message)>)
    requires WellFormed(answer)
    ensures r.Ok? <==> StringUtils.VintageFromStr(collectionName).Ok? && nResults >= 0
    ensures r.Err? ==> r.raised == if StringUtils.VintageFromStr(collectionName).Err? then TypeError else ValueError
    ensures r.Ok? ==>
      var p', sorted := r.value.0, SortedSurvivors(answer, distanceThreshold);
      && p'.currentKeywords == keywords
      && p'.dataVintage == Some(formatVintage(StringUtils.VintageFromStr(collectionName).value))
      && p'.results.Ranked?
      && |p'.results.items| <= |sorted| && p'.results.items == sorted[..|p'.results.items|]
      && (nResults > 0 ==> |p'.results.items| == if nResults < |sorted| then nResults else |sorted|)
      && (nResults == 0 ==> p'.results.items == sorted)
      && p'.totalRemoved == CountAbove(Flatten(answer), distanceThreshold) + (|sorted| - |p'.results.items|)
      && |p'.exportTable| == |p.exportTable| + |p'.results.items|
      && p'.exportTable[..|p.exportTable|] == p.exportTable
      && p'.chatUiResults.Some?
      && r.value.1 == Message("user", Flatten1Line(metaPrompt(sanitisedPrompt, p'.chatUiResults.value)))
    ensures r.Ok? && r.value.0.results.Ranked? ==>
      var p' := r.value.0;
      forall i :: 0 <= i < |p'.results.items| ==>
        p'.exportTable[|p.exportTable| + i] == MakeRow(keywords, p'.results.items[i], extract, formatDate)
    ensures r.Ok? && r.value.0.results.Ranked? && r.value.0.chatUiResults.Some?
            && |r.value.0.exportTable| == |p.exportTable| + |r.value.0.results.items| ==>
      var p', items := r.value.0, r.value.0.results.items;
      p'.chatUiResults.value ==
        Join(seq(|items|, i requires 0 <= i < |items| => render(p'.exportTable[|p.exportTable| + i])), "***")
  {
    var filtered := QueryAndFilter(p, keywords, nResults, distanceThreshold, collectionName, answer, formatVintage);
    if filtered.Err? {
      return Err(filtered.raised);
    }
    r := RespondWithDbResults(filtered.value, sanitisedPrompt, extract, formatDate, render, metaPrompt);
  }
}
