/** The `/mentor/chat` handler: normalise the language model's reply,
    clean its recommendations against the user's history, write each
    cleaned problem back to the catalog, and cut the list to the requested
    limit. The database reads are inputs; the catalog write-back is a log. */
module Mentor {
  import opened Wrappers
  import opened PyStr
  import OllamaClient

  // ---------------------------------------------------------------- data

  /** A row of the user's recent problem history, as the database layer
      hands it over; `topics` is the stored comma-separated tag list. */
  datatype HistoryRow = HistoryRow(slug: string, difficulty: string, status: string, topics: Option<string>)

  /** One line of the prompt's history section, before it is rendered as text. */
  datatype HistoryLine = HistoryLine(slug: string, difficulty: string, status: string, topics: seq<string>)

  /** A recommendation object in the model's reply; `None` is a missing key
      or a JSON null. */
  datatype Recommendation = Recommendation(slug: Option<string>, title: Option<string>,
                                           difficulty: Option<string>, why: Option<string>)

  /** The model's decoded reply object: the keys `reply`, `recommendations`,
      `next_steps` and its alias `nextSteps`. */
  datatype MentorReply = MentorReply(reply: Option<string>, recommendations: Option<seq<Recommendation>>,
                                     nextSteps: Option<seq<string>>, nextStepsAlias: Option<seq<string>>)

  /** A recommendation after cleaning: every field present and trimmed. */
  datatype CleanRecommendation = CleanRecommendation(slug: string, title: string, difficulty: string, why: string)

  /** The request payload. */
  datatype ChatRequest = ChatRequest(message: string, weakTopics: seq<string>,
                                     targetDifficulty: Option<string>, limit: int)

  /** The response body. */
  datatype ChatReply = ChatReply(reply: string, recommendations: seq<CleanRecommendation>, nextSteps: seq<string>)

  /** One call of the catalog's `upsert_problem(slug, title, difficulty, topics_csv)`. */
  datatype Upsert = Upsert(slug: string, title: string, difficulty: string, topicsCsv: string)

  /** The HTTP error the handler raises. */
  datatype HttpError = HttpError(status: int, detail: string)

  const ValidDifficulties: set<string> := {"Easy", "Medium", "Hard"}
  const DefaultDifficulty: string := "Medium"
  const DefaultWhy: string := "Good next step."

  /** The catalog's write side, reduced to the log of upserts it receives. */
  class Catalog {
    var upserts: seq<Upsert>

    constructor ()
      ensures upserts == []
    {
      upserts := [];
    }

    method UpsertProblem(slug: string, title: string, difficulty: string, topicsCsv: string)
      modifies this
      ensures upserts == old(upserts) + [Upsert(slug, title, difficulty, topicsCsv)]
    {
      upserts := upserts + [Upsert(slug, title, difficulty, topicsCsv)];
    }
  }

  // ------------------------------------------------------- small helpers

  /** An optional string with a missing or null value read as the empty string. */
  function OrEmpty(o: Option<string>): string {
    match o
    case None => ""
    case Some(s) => s
  }

  /** Python truthiness of an optional string. */
  predicate Truthy(o: Option<string>) {
    o.Some? && o.value != ""
  }

  /** Python's `s[:n]`, including its reading of a negative `n`. */
  function PyPrefix<T>(s: seq<T>, n: int): (r: seq<T>)
    ensures r <= s
    ensures n >= 0 ==> |r| == if n < |s| then n else |s|
    ensures n < 0 ==> |r| == if |s| + n > 0 then |s| + n else 0
  {
    if n >= 0 then (if n < |s| then s[..n] else s)
    else if |s| + n > 0 then s[..|s| + n]
    else []
  }

  // ------------------------------------------------------ topic splitting

  /** The stripped, non-empty pieces of a list of pieces, in order. */
  function NonEmptyStripped(parts: seq<string>): (r: seq<string>)
    ensures |r| <= |parts|
    ensures forall i | 0 <= i < |r| :: r[i] != "" && NoEdgeSpace(r[i])
  {
    if parts == [] then []
    else
      var t := Strip(parts[0]);
      var rest := NonEmptyStripped(parts[1..]);
      if t == "" then rest else [t] + rest
  }

  /** A piece survives exactly when its stripped form is non-empty. */
  lemma {:induction false} NonEmptyStrippedMembers(parts: seq<string>)
    ensures forall t :: t in NonEmptyStripped(parts) <==>
              t != "" && exists i | 0 <= i < |parts| :: Strip(parts[i]) == t
  {
    if parts != [] {
      NonEmptyStrippedMembers(parts[1..]);
      assert forall i | 1 <= i < |parts| :: parts[i] == parts[1..][i - 1];
      assert forall i | 0 <= i < |parts[1..]| :: parts[1..][i] == parts[i + 1];
    }
  }

  /** The topic tags of a history row: the stored string (empty when missing)
      cut at every comma, each piece trimmed, and empty pieces dropped. */
  function Topics(topics: Option<string>): (r: seq<string>)
    ensures forall i | 0 <= i < |r| :: r[i] != "" && NoEdgeSpace(r[i])
  {
    NonEmptyStripped(Split(OrEmpty(topics), ','))
  }

  /** The topic tags are the non-empty stripped comma-separated pieces of
      the stored string, and none of them contains a comma. */
  lemma TopicsMembers(topics: Option<string>)
    ensures forall t :: t in Topics(topics) <==>
              t != "" && exists i | 0 <= i < |Split(OrEmpty(topics), ',')| :: Strip(Split(OrEmpty(topics), ',')[i]) == t
    ensures forall t | t in Topics(topics) :: ',' !in t
  {
    var parts := Split(OrEmpty(topics), ',');
    NonEmptyStrippedMembers(parts);
    forall t | t in Topics(topics) ensures ',' !in t {
      var i :| 0 <= i < |parts| && Strip(parts[i]) == t;
      StripChars(parts[i]);
    }
  }

  /** A tag list written back in its stored form: the tags separated by commas. */
  function JoinCsv(tags: seq<string>): string {
    if tags == [] then "" else Join(tags, ',')
  }

  lemma {:induction false} NonEmptyStrippedOfClean(tags: seq<string>)
    requires forall i | 0 <= i < |tags| :: tags[i] != "" && NoEdgeSpace(tags[i])
    ensures NonEmptyStripped(tags) == tags
  {
    if tags != [] {
      StripUnique([], tags[0], []);
      assert [] + tags[0] + [] == tags[0];
      NonEmptyStrippedOfClean(tags[1..]);
    }
  }

  /** Topic splitting reads back a stored tag list exactly, when every tag
      is non-empty, has no edge whitespace and contains no comma. */
  lemma TopicsOfJoined(tags: seq<string>)
    requires forall i | 0 <= i < |tags| :: tags[i] != "" && NoEdgeSpace(tags[i]) && ',' !in tags[i]
    ensures Topics(Some(JoinCsv(tags))) == tags
  {
    if tags == [] {
      assert Split("", ',') == [""];
    } else {
      SplitJoin(tags, ',');
      NonEmptyStrippedOfClean(tags);
    }
  }

  // --------------------------------------------------- the history lines

  function LineOf(h: HistoryRow): HistoryLine {
    HistoryLine(h.slug, h.difficulty, h.status, Topics(h.topics))
  }

  /** The loop that builds `history_lines`, one line per history row. */
  method HistoryLines(history: seq<HistoryRow>) returns (lines: seq<HistoryLine>)
    ensures |lines| == |history|
    ensures forall i | 0 <= i < |lines| ::
              lines[i].slug == history[i].slug && lines[i].status == history[i].status
              && lines[i].difficulty == history[i].difficulty && lines[i].topics == Topics(history[i].topics)
  {
    lines := [];
    for i := 0 to |history|
      invariant |lines| == i
      invariant forall k | 0 <= k < i :: lines[k] == LineOf(history[k])
    {
      var h := history[i];
      var topics := Topics(h.topics);
      lines := lines + [HistoryLine(h.slug, h.difficulty, h.status, topics)];
    }
  }

  /** The slugs of the history rows whose status is exactly "solved". */
  function SolvedSlugs(history: seq<HistoryRow>): (r: set<string>)
    ensures forall i | 0 <= i < |history| && history[i].status == "solved" :: history[i].slug in r
    ensures forall s | s in r :: exists i | 0 <= i < |history| :: history[i].slug == s && history[i].status == "solved"
  {
    set i | 0 <= i < |history| && history[i].status == "solved" :: history[i].slug
  }

  // ------------------------------------------------ key normalisation

  /** The reply text, empty when the key is missing. */
  function ReplyText(obj: MentorReply): (r: string)
    ensures obj.reply.None? ==> r == ""
    ensures obj.reply.Some? ==> r == obj.reply.value
  {
    OrEmpty(obj.reply)
  }

  /** The recommendation list, empty when the key is missing or null. */
  function RecommendationsOf(obj: MentorReply): (r: seq<Recommendation>)
    ensures obj.recommendations.None? ==> r == []
    ensures obj.recommendations.Some? ==> r == obj.recommendations.value
  {
    match obj.recommendations
    case None => []
    case Some(rs) => rs
  }

  /** The next steps under `next_steps`, else under the alias `nextSteps`,
      else none. The primary key
      wins when it holds a non-empty list; an empty list falls through. */
  function NextStepsOf(obj: MentorReply): (r: seq<string>)
    ensures obj.nextSteps.Some? && obj.nextSteps.value != [] ==> r == obj.nextSteps.value
    ensures (obj.nextSteps.None? || obj.nextSteps.value == []) && obj.nextStepsAlias.Some? ==> r == obj.nextStepsAlias.value
    ensures (obj.nextSteps.None? || obj.nextSteps.value == []) && obj.nextStepsAlias.None? ==> r == []
  {
    if obj.nextSteps.Some? && obj.nextSteps.value != [] then obj.nextSteps.value
    else if obj.nextStepsAlias.Some? && obj.nextStepsAlias.value != [] then obj.nextStepsAlias.value
    else []
  }

  // ---------------------------------------------- cleaning, as functions

  /** A difficulty outside {Easy, Medium, Hard} is replaced by
      the target difficulty when that is truthy, else by "Medium". */
  function RepairDifficulty(d: string, target: Option<string>): (r: string)
    ensures d in ValidDifficulties ==> r == d
    ensures r in ValidDifficulties || (Truthy(target) && r == target.value)
    ensures (!Truthy(target) || target.value in ValidDifficulties) ==> r in ValidDifficulties
    ensures r != d ==> d !in ValidDifficulties
    ensures d !in ValidDifficulties ==> r == (if Truthy(target) then target.value else DefaultDifficulty)
  {
    if d in ValidDifficulties then d
    else if Truthy(target) then target.value
    else DefaultDifficulty
  }

  /** The trimmed slug of a recommendation, "" when missing. */
  function SlugOf(r: Recommendation): string {
    Strip(OrEmpty(r.slug))
  }

  /** The cleaned form of one recommendation: trimmed fields, the title
      falling back to the slug, the reason to the stock reason, and the
      difficulty repaired. */
  function Normalise(r: Recommendation, target: Option<string>): (c: CleanRecommendation)
    ensures c.slug == Strip(OrEmpty(r.slug))
    ensures c.title == if Strip(OrEmpty(r.title)) != "" then Strip(OrEmpty(r.title)) else c.slug
    ensures c.why == if Strip(OrEmpty(r.why)) != "" then Strip(OrEmpty(r.why)) else DefaultWhy
    ensures Strip(OrEmpty(r.difficulty)) in ValidDifficulties ==> c.difficulty == Strip(OrEmpty(r.difficulty))
    ensures Strip(OrEmpty(r.difficulty)) !in ValidDifficulties ==>
              c.difficulty == if Truthy(target) then target.value else DefaultDifficulty
  {
    var slug := SlugOf(r);
    var title := Strip(OrEmpty(r.title));
    var why := Strip(OrEmpty(r.why));
    CleanRecommendation(slug, if title != "" then title else slug,
                        RepairDifficulty(Strip(OrEmpty(r.difficulty)), target),
                        if why != "" then why else DefaultWhy)
  }

  /** Every recommendation normalised, in input order. */
  function NormaliseAll(recs: seq<Recommendation>, target: Option<string>): (ns: seq<CleanRecommendation>)
    ensures |ns| == |recs|
    ensures forall i | 0 <= i < |recs| :: ns[i] == Normalise(recs[i], target)
  {
    seq(|recs|, i requires 0 <= i < |recs| => Normalise(recs[i], target))
  }

  function SlugsOf(cs: seq<CleanRecommendation>): set<string> {
    set i | 0 <= i < |cs| :: cs[i].slug
  }

  /** The skip test of the cleaning loop over normalised items: the list the loop has
      built after `ns`, i.e. the loop run over all but the last item, then
      the last item's step. */
  function Filtered(ns: seq<CleanRecommendation>, solved: set<string>): seq<CleanRecommendation>
    decreases |ns|
  {
    if ns == [] then []
    else
      var done := Filtered(ns[..|ns| - 1], solved);
      var c := ns[|ns| - 1];
      if c.slug == "" || c.slug in SlugsOf(done) || c.slug in solved then done else done + [c]
  }

  /** One step of the filter: item `i` is appended unless its slug is
      empty, already kept or solved. */
  lemma FilteredStep(ns: seq<CleanRecommendation>, i: int, solved: set<string>)
    requires 0 <= i < |ns|
    ensures var done := Filtered(ns[..i], solved);
            Filtered(ns[..i + 1], solved)
            == if ns[i].slug == "" || ns[i].slug in SlugsOf(done) || ns[i].slug in solved
               then done else done + [ns[i]]
  {
    assert ns[..i + 1][..i] == ns[..i];
  }

  /** The list `cleaned` once the loop has gone through `recs`. */
  function Cleaned(recs: seq<Recommendation>, solved: set<string>, target: Option<string>): seq<CleanRecommendation> {
    Filtered(NormaliseAll(recs, target), solved)
  }

  /** The log of upserts for a cleaned list: one per element, same order,
      empty topics. */
  function UpsertsFor(cs: seq<CleanRecommendation>): seq<Upsert> {
    seq(|cs|, i requires 0 <= i < |cs| => Upsert(cs[i].slug, cs[i].title, cs[i].difficulty, ""))
  }

  lemma UpsertsForSnoc(cs: seq<CleanRecommendation>, c: CleanRecommendation)
    ensures UpsertsFor(cs + [c]) == UpsertsFor(cs) + [Upsert(c.slug, c.title, c.difficulty, "")]
  {
    assert forall k | 0 <= k < |cs| :: (cs + [c])[k] == cs[k];
  }

  /** Appending one kept item's write to a log that already holds the
      writes for `cs` gives the log holding the writes for `cs + [c]`. */
  lemma LogSnoc(log: seq<Upsert>, cs: seq<CleanRecommendation>, c: CleanRecommendation)
    ensures (log + UpsertsFor(cs)) + [Upsert(c.slug, c.title, c.difficulty, "")]
            == log + UpsertsFor(cs + [c])
  {
    UpsertsForSnoc(cs, c);
    var u := Upsert(c.slug, c.title, c.difficulty, "");
    var a := log + UpsertsFor(cs);
    assert |a + [u]| == |log + UpsertsFor(cs + [c])|;
    forall k | 0 <= k < |a + [u]|
      ensures (a + [u])[k] == (log + UpsertsFor(cs + [c]))[k]
    {
      if k < |log| {
      } else if k < |a| {
        assert (a + [u])[k] == UpsertsFor(cs)[k - |log|];
      }
    }
  }

  // ------------------------------------------------- what cleaning keeps

  /** Item `j` is kept: its slug is non-empty, not solved, and no earlier
      item has the same slug. */
  predicate Kept(ns: seq<CleanRecommendation>, solved: set<string>, j: int)
    requires 0 <= j < |ns|
  {
    ns[j].slug != "" && ns[j].slug !in solved && forall k | 0 <= k < j :: ns[k].slug != ns[j].slug
  }

  /** The slugs the filter can keep: non-empty and not solved. */
  function AdmissibleSlugs(ns: seq<CleanRecommendation>, solved: set<string>): set<string> {
    set j | 0 <= j < |ns| && ns[j].slug != "" && ns[j].slug !in solved :: ns[j].slug
  }

  /** `idx` lists, in increasing order, the items that `out` consists of,
      and they are exactly the kept items. */
  ghost predicate Origins(out: seq<CleanRecommendation>, ns: seq<CleanRecommendation>,
                          solved: set<string>, idx: seq<nat>)
  {
    && |idx| == |out|
    && (forall i | 0 <= i < |idx| :: idx[i] < |ns| && out[i] == ns[idx[i]])
    && (forall i, j | 0 <= i < j < |idx| :: idx[i] < idx[j])
    && (forall j | 0 <= j < |ns| :: j in idx <==> Kept(ns, solved, j))
  }

  lemma SlugsOfSnoc(cs: seq<CleanRecommendation>, c: CleanRecommendation)
    ensures SlugsOf(cs + [c]) == SlugsOf(cs) + {c.slug}
  {
    assert forall k | 0 <= k < |cs| :: (cs + [c])[k] == cs[k];
    assert (cs + [c])[|cs|] == c;
  }

  /** The filtered slugs are exactly the admissible slugs. */
  lemma {:induction false} FilteredSlugs(ns: seq<CleanRecommendation>, solved: set<string>)
    ensures SlugsOf(Filtered(ns, solved)) == AdmissibleSlugs(ns, solved)
    decreases |ns|
  {
    if ns != [] {
      var n := |ns| - 1;
      var prev := ns[..n];
      FilteredSlugs(prev, solved);
      var done := Filtered(prev, solved);
      var c := ns[n];
      var extra: set<string> := if c.slug != "" && c.slug !in solved then {c.slug} else {};
      assert AdmissibleSlugs(ns, solved) == AdmissibleSlugs(prev, solved) + extra by {
        forall s ensures s in AdmissibleSlugs(ns, solved) <==> s in AdmissibleSlugs(prev, solved) + extra {
          if s in AdmissibleSlugs(ns, solved) {
            var j :| 0 <= j < |ns| && ns[j].slug != "" && ns[j].slug !in solved && ns[j].slug == s;
            if j < n { assert prev[j] == ns[j]; }
          }
          if s in AdmissibleSlugs(prev, solved) {
            var j :| 0 <= j < n && prev[j].slug != "" && prev[j].slug !in solved && prev[j].slug == s;
            assert ns[j] == prev[j];
          }
        }
      }
      if !(c.slug == "" || c.slug in SlugsOf(done) || c.slug in solved) {
        SlugsOfSnoc(done, c);
      }
    }
  }

  /** Appending an item leaves the kept status of the earlier items alone. */
  lemma KeptSnoc(prev: seq<CleanRecommendation>, c: CleanRecommendation, solved: set<string>)
    ensures forall j | 0 <= j < |prev| :: Kept(prev + [c], solved, j) == Kept(prev, solved, j)
  {
    assert forall j | 0 <= j < |prev| :: (prev + [c])[j] == prev[j];
  }

  /** The step of `FilteredOrigins` that drops the next item `c`. */
  lemma OriginsDrop(prev: seq<CleanRecommendation>, c: CleanRecommendation, out: seq<CleanRecommendation>,
                    solved: set<string>, pidx: seq<nat>)
    requires Origins(out, prev, solved, pidx)
    requires SlugsOf(out) == AdmissibleSlugs(prev, solved)
    requires c.slug == "" || c.slug in SlugsOf(out) || c.slug in solved
    ensures Origins(out, prev + [c], solved, pidx)
  {
    var ns := prev + [c];
    KeptSnoc(prev, c, solved);
    if c.slug != "" && c.slug !in solved {
      var j :| 0 <= j < |prev| && prev[j].slug != "" && prev[j].slug !in solved && prev[j].slug == c.slug;
      assert ns[j] == prev[j];
      assert ns[|prev|] == c;
      assert !Kept(ns, solved, |prev|);
    }
  }

  /** The step of `FilteredOrigins` that keeps the next item `c`. */
  lemma OriginsKeep(prev: seq<CleanRecommendation>, c: CleanRecommendation, out: seq<CleanRecommendation>,
                    solved: set<string>, pidx: seq<nat>)
    requires Origins(out, prev, solved, pidx)
    requires SlugsOf(out) == AdmissibleSlugs(prev, solved)
    requires c.slug != "" && c.slug !in SlugsOf(out) && c.slug !in solved
    ensures Origins(out + [c], prev + [c], solved, pidx + [|prev|])
  {
    var ns := prev + [c];
    var n := |prev|;
    KeptSnoc(prev, c, solved);
    assert forall j | 0 <= j < n :: ns[j] == prev[j];
    assert ns[n] == c;
    assert forall k | 0 <= k < n :: prev[k].slug != "" && prev[k].slug !in solved ==>
             prev[k].slug in AdmissibleSlugs(prev, solved);
    assert Kept(ns, solved, n);
    var idx := pidx + [n];
    forall j | 0 <= j < |ns| ensures j in idx <==> Kept(ns, solved, j) {
      if j < n { assert j in idx <==> j in pidx; }
    }
    assert forall i | 0 <= i < |idx| :: idx[i] < |ns| && (out + [c])[i] == ns[idx[i]];
  }

  /** The filtered list is the kept items, in their original order. */
  lemma {:induction false} FilteredOrigins(ns: seq<CleanRecommendation>, solved: set<string>)
    returns (idx: seq<nat>)
    ensures Origins(Filtered(ns, solved), ns, solved, idx)
    decreases |ns|
  {
    if ns == [] {
      idx := [];
    } else {
      var n := |ns| - 1;
      var prev := ns[..n];
      var c := ns[n];
      assert ns == prev + [c];
      var pidx := FilteredOrigins(prev, solved);
      var out := Filtered(prev, solved);
      FilteredSlugs(prev, solved);
      if c.slug == "" || c.slug in SlugsOf(out) || c.slug in solved {
        OriginsDrop(prev, c, out, solved, pidx);
        idx := pidx;
      } else {
        OriginsKeep(prev, c, out, solved, pidx);
        idx := pidx + [n];
      }
    }
  }

  /** The output slugs of cleaning are exactly the trimmed input slugs that
      are non-empty and not solved. */
  lemma CleanedSlugs(recs: seq<Recommendation>, solved: set<string>, target: Option<string>)
    ensures forall s :: s in SlugsOf(Cleaned(recs, solved, target)) <==>
              s != "" && s !in solved && exists j | 0 <= j < |recs| :: SlugOf(recs[j]) == s
  {
    var ns := NormaliseAll(recs, target);
    FilteredSlugs(ns, solved);
  }

  /** The cleaned list, in input order, is the normalised form of exactly
      those inputs whose trimmed slug is non-empty, not solved, and not
      carried by an earlier input. */
  lemma CleanedOrigins(recs: seq<Recommendation>, solved: set<string>, target: Option<string>)
    returns (idx: seq<nat>)
    ensures |idx| == |Cleaned(recs, solved, target)|
    ensures forall i | 0 <= i < |idx| ::
              idx[i] < |recs| && Cleaned(recs, solved, target)[i] == Normalise(recs[idx[i]], target)
    ensures forall i, j | 0 <= i < j < |idx| :: idx[i] < idx[j]
    ensures forall j | 0 <= j < |recs| ::
              j in idx <==> SlugOf(recs[j]) != "" && SlugOf(recs[j]) !in solved
                            && forall k | 0 <= k < j :: SlugOf(recs[k]) != SlugOf(recs[j])
  {
    var ns := NormaliseAll(recs, target);
    idx := FilteredOrigins(ns, solved);
    forall j | 0 <= j < |recs|
      ensures Kept(ns, solved, j) <==> SlugOf(recs[j]) != "" && SlugOf(recs[j]) !in solved
                                       && forall k | 0 <= k < j :: SlugOf(recs[k]) != SlugOf(recs[j])
    {
      assert ns[j].slug == SlugOf(recs[j]);
      assert forall k | 0 <= k < j :: ns[k].slug == SlugOf(recs[k]);
    }
  }

  /** Every output recommendation is the normalised form (`Normalise`,
      whose contract states the field rules) of a distinct input
      `recs[idx[i]]` whose trimmed slug is non-empty, not solved, and not
      carried by an earlier input. Hence its slug is non-empty and not
      solved, its title and reason are non-empty, and its difficulty is
      valid or the truthy target. */
  lemma CleanedFields(recs: seq<Recommendation>, solved: set<string>, target: Option<string>)
    returns (idx: seq<nat>)
    ensures |idx| == |Cleaned(recs, solved, target)|
    ensures forall i | 0 <= i < |idx| ::
              && idx[i] < |recs|
              && Cleaned(recs, solved, target)[i] == Normalise(recs[idx[i]], target)
              && SlugOf(recs[idx[i]]) != "" && SlugOf(recs[idx[i]]) !in solved
              && forall k | 0 <= k < idx[i] :: SlugOf(recs[k]) != SlugOf(recs[idx[i]])
    ensures forall c | c in Cleaned(recs, solved, target) ::
              c.slug != "" && c.slug !in solved && c.title != "" && c.why != ""
              && (c.difficulty in ValidDifficulties || (Truthy(target) && c.difficulty == target.value))
  {
    var out := Cleaned(recs, solved, target);
    idx := CleanedOrigins(recs, solved, target);
    forall i | 0 <= i < |idx|
      ensures && idx[i] < |recs|
              && out[i] == Normalise(recs[idx[i]], target)
              && SlugOf(recs[idx[i]]) != "" && SlugOf(recs[idx[i]]) !in solved
              && forall k | 0 <= k < idx[i] :: SlugOf(recs[k]) != SlugOf(recs[idx[i]])
    {
      assert idx[i] in idx;
    }
    forall c | c in out
      ensures c.slug != "" && c.slug !in solved && c.title != "" && c.why != ""
              && (c.difficulty in ValidDifficulties || (Truthy(target) && c.difficulty == target.value))
    {
      var i :| 0 <= i < |out| && out[i] == c;
      NormaliseFields(recs[idx[i]], target);
    }
  }

  /** A cleaned input with a non-empty slug has a non-empty title and reason
      and a valid or target difficulty. */
  lemma NormaliseFields(r: Recommendation, target: Option<string>)
    requires SlugOf(r) != ""
    ensures Normalise(r, target).title != "" && Normalise(r, target).why != ""
    ensures var d := Normalise(r, target).difficulty;
            d in ValidDifficulties || (Truthy(target) && d == target.value)
  {
  }

  /** Output slugs are pairwise distinct. */
  lemma CleanedDistinct(recs: seq<Recommendation>, solved: set<string>, target: Option<string>)
    ensures forall i, j | 0 <= i < j < |Cleaned(recs, solved, target)| ::
              Cleaned(recs, solved, target)[i].slug != Cleaned(recs, solved, target)[j].slug
  {
    var ns := NormaliseAll(recs, target);
    var out := Filtered(ns, solved);
    var idx := FilteredOrigins(ns, solved);
    forall i, j | 0 <= i < j < |out| ensures out[i].slug != out[j].slug {
      assert idx[j] in idx;
      assert Kept(ns, solved, idx[j]);
    }
  }

  // ---------------------------------------------------- the handler

  /** One pass of the cleaning loop's field handling, computing the cleaned
      form `Normalise` states field by field. */
  method NormaliseItem(r: Recommendation, target: Option<string>) returns (c: CleanRecommendation)
    ensures c == Normalise(r, target)
  {
    var slug := Strip(OrEmpty(r.slug));
    var title := Strip(OrEmpty(r.title));
    var difficulty := Strip(OrEmpty(r.difficulty));
    var why := Strip(OrEmpty(r.why));
    if difficulty !in ValidDifficulties {
      difficulty := if Truthy(target) then target.value else DefaultDifficulty;
    }
    c := CleanRecommendation(slug, if title != "" then title else slug, difficulty,
                             if why != "" then why else DefaultWhy);
  }

  /** The cleaning loop of `mentor_chat`: it keeps the recommendations
      `Cleaned` keeps, in order, and writes each kept one to the catalog
      (with empty topics) as it goes. */
  method CleanRecommendations(recs: seq<Recommendation>, solved: set<string>, target: Option<string>, db: Catalog)
    returns (cleaned: seq<CleanRecommendation>)
    modifies db
    ensures cleaned == Cleaned(recs, solved, target)
    ensures db.upserts == old(db.upserts) + UpsertsFor(cleaned)
  {
    cleaned := [];
    var seen: set<string> := {};
    ghost var log0 := db.upserts;
    ghost var ns := NormaliseAll(recs, target);
    for i := 0 to |recs|
      invariant cleaned == Filtered(ns[..i], solved)
      invariant seen == SlugsOf(cleaned)
      invariant db.upserts == log0 + UpsertsFor(cleaned)
    {
      var c := NormaliseItem(recs[i], target);
      FilteredStep(ns, i, solved);
      if c.slug == "" || c.slug in seen || c.slug in solved {
        continue;
      }
      seen := seen + {c.slug};
      SlugsOfSnoc(cleaned, c);
      LogSnoc(log0, cleaned, c);
      cleaned := cleaned + [c];
      db.UpsertProblem(c.slug, c.title, c.difficulty, "");
    }
    assert ns[..|recs|] == ns;
  }

  /** What `ollama_chat_json` yields for the handler: the HTTP outcome
      (an error message, or the decoded response) followed by the parse. */
  function ModelOutcome(llm: Result<OllamaClient.ChatResponse, string>,
                        parse: string -> Result<MentorReply, string>): Result<MentorReply, string>
  {
    match llm
    case Failure(e) => Failure(e)
    case Success(data) => OllamaClient.ChatJson(data, parse)
  }

  /** `mentor_chat` from the model call on. `history` is what
      `get_user_problem_history` returned; the model call's outcome is
      `llm` and `parse`; the catalog's writes go to `db`. */
  method MentorChat(payload: ChatRequest, history: seq<HistoryRow>,
                    llm: Result<OllamaClient.ChatResponse, string>,
                    parse: string -> Result<MentorReply, string>, db: Catalog)
    returns (out: Result<ChatReply, HttpError>, lines: seq<HistoryLine>)
    modifies db
    ensures lines == seq(|history|, i requires 0 <= i < |history| => LineOf(history[i]))
    ensures ModelOutcome(llm, parse).Failure? ==>
              out == Failure(HttpError(500, "Ollama error: " + ModelOutcome(llm, parse).error))
              && db.upserts == old(db.upserts)
    ensures ModelOutcome(llm, parse).Success? ==>
              var obj := ModelOutcome(llm, parse).value;
              var cleaned := Cleaned(RecommendationsOf(obj), SolvedSlugs(history), payload.targetDifficulty);
              && out == Success(ChatReply(ReplyText(obj), PyPrefix(cleaned, payload.limit), NextStepsOf(obj)))
              && db.upserts == old(db.upserts) + UpsertsFor(cleaned)
  {
    lines := HistoryLines(history);
    var res := ModelOutcome(llm, parse);
    if res.Failure? {
      return Failure(HttpError(500, "Ollama error: " + res.error)), lines;
    }
    var obj := res.value;
    var reply := ReplyText(obj);
    var recs := RecommendationsOf(obj);
    var steps := NextStepsOf(obj);
    var solved := SolvedSlugs(history);
    var cleaned := CleanRecommendations(recs, solved, payload.targetDifficulty, db);
    out := Success(ChatReply(reply, PyPrefix(cleaned, payload.limit), steps));
  }

  // ---------------------------------------- write-back and truncation

  /** One upsert per cleaned item, in the cleaned order, carrying the item's
      slug, title and difficulty and empty topics. */
  lemma WriteBackOrder(recs: seq<Recommendation>, solved: set<string>, target: Option<string>)
    ensures |UpsertsFor(Cleaned(recs, solved, target))| == |Cleaned(recs, solved, target)|
    ensures forall i | 0 <= i < |Cleaned(recs, solved, target)| ::
              var c := Cleaned(recs, solved, target)[i];
              UpsertsFor(Cleaned(recs, solved, target))[i] == Upsert(c.slug, c.title, c.difficulty, "")
  {
  }

  /** No slug is upserted twice. */
  lemma WriteBackDistinct(recs: seq<Recommendation>, solved: set<string>, target: Option<string>)
    ensures var ups := UpsertsFor(Cleaned(recs, solved, target));
            forall i, j | 0 <= i < j < |ups| :: ups[i].slug != ups[j].slug
  {
    CleanedDistinct(recs, solved, target);
  }

  /** The upserted slugs are exactly the trimmed input slugs that are
      non-empty and not solved. */
  lemma WriteBackSlugs(recs: seq<Recommendation>, solved: set<string>, target: Option<string>)
    ensures var ups := UpsertsFor(Cleaned(recs, solved, target));
            forall s :: (exists i | 0 <= i < |ups| :: ups[i].slug == s) <==>
              s != "" && s !in solved && exists j | 0 <= j < |recs| :: SlugOf(recs[j]) == s
  {
    var cleaned := Cleaned(recs, solved, target);
    var ups := UpsertsFor(cleaned);
    CleanedSlugs(recs, solved, target);
    forall s ensures (exists i | 0 <= i < |ups| :: ups[i].slug == s) <==> s in SlugsOf(cleaned) {
      if s in SlugsOf(cleaned) {
        var i :| 0 <= i < |cleaned| && cleaned[i].slug == s;
        assert ups[i].slug == s;
      }
    }
  }

  /** The returned list is a prefix of the cleaned list, so the returned
      items were upserted at the same positions, and the items that `limit`
      cuts off were upserted too. */
  lemma WriteBackCoversReturned(recs: seq<Recommendation>, solved: set<string>, target: Option<string>, limit: int)
    ensures var cleaned := Cleaned(recs, solved, target);
            var ups := UpsertsFor(cleaned);
            var returned := PyPrefix(cleaned, limit);
            && |returned| <= |ups|
            && (forall i | 0 <= i < |returned| :: returned[i] == cleaned[i] && ups[i].slug == returned[i].slug)
            && (forall i | |returned| <= i < |cleaned| :: ups[i].slug == cleaned[i].slug)
  {
    var cleaned := Cleaned(recs, solved, target);
    var returned := PyPrefix(cleaned, limit);
    assert forall i | 0 <= i < |returned| :: returned[i] == cleaned[i];
  }
}
