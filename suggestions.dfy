/**
 * The address-bar suggestion list: a fuzzy matcher scoring a query against a string, and
 * the list built from the common domains, the open link trails and the archived trails,
 * ranked by score and cut to eight entries.
 */
module Suggestions {
  import opened Wrappers
  import opened Text
  import opened TrailTypes

  // ---------------------------------------------------------------------------
  // Fuzzy matching.

  /** `q` can be read off `t` by deleting characters: the reference meaning of a fuzzy match. */
  predicate Subsequence(q: string, t: string)
    decreases |t|
  {
    q == [] || (t != [] && ((q[0] == t[0] && Subsequence(q[1..], t[1..])) || Subsequence(q, t[1..])))
  }

  /** The number of characters of `q` the greedy left-to-right scan over `t` matches. */
  function Greedy(q: string, t: string): (r: nat)
    ensures r <= |q|
    decreases |t|
  {
    if q == [] || t == [] then 0
    else if t[0] == q[0] then 1 + Greedy(q[1..], t[1..])
    else Greedy(q, t[1..])
  }

  /** `fuzzyMatch(query, target)`: 0 for an empty argument, else 100, 80, ten per query character, or 0. */
  function FuzzyScore(query: string, target: string): (r: nat)
    ensures query == [] || target == [] ==> r == 0
    ensures r > 100 ==> r == 10 * |query|
  {
    if query == [] || target == [] then 0
    else
      var q := Lower(query);
      var t := Lower(target);
      if IsPrefix(q, t) then 100
      else if Contains(t, q) then 80
      else if Greedy(q, t) == |q| then 10 * |q|
      else 0
  }

  /** A score is one of the three tiers or nothing: 100, 80, ten per query character, or 0. */
  lemma FuzzyScoreValues(query: string, target: string)
    ensures var r := FuzzyScore(query, target);
      r == 0 || r == 80 || r == 100 || r == 10 * |query|
  {
  }

  lemma {:induction false} SubsequenceDropHead(q: string, t: string)
    requires q != [] && Subsequence(q, t)
    ensures Subsequence(q[1..], t)
    decreases |t|
  {
    if q[1..] != [] && !(q[0] == t[0] && Subsequence(q[1..], t[1..])) {
      SubsequenceDropHead(q, t[1..]);
    }
  }

  /** The greedy scan matches the whole query exactly when the query is a subsequence. */
  lemma {:induction false} GreedyComplete(q: string, t: string)
    ensures Greedy(q, t) == |q| <==> Subsequence(q, t)
    decreases |t|
  {
    if q != [] && t != [] {
      if t[0] == q[0] {
        GreedyComplete(q[1..], t[1..]);
        if Subsequence(q, t[1..]) {
          SubsequenceDropHead(q, t[1..]);
        }
      } else {
        GreedyComplete(q, t[1..]);
      }
    }
  }

  lemma {:induction false} PrefixSubsequence(q: string, t: string)
    requires IsPrefix(q, t)
    ensures Subsequence(q, t)
    decreases |q|
  {
    if q != [] {
      assert IsPrefix(q[1..], t[1..]) by { assert t[1..][..|q| - 1] == t[..|q|][1..]; }
      PrefixSubsequence(q[1..], t[1..]);
    }
  }

  lemma {:induction false} ContainsSubsequence(t: string, q: string)
    requires Contains(t, q)
    ensures Subsequence(q, t)
    decreases |t|
  {
    if IsPrefix(q, t) {
      PrefixSubsequence(q, t);
    } else {
      ContainsSubsequence(t[1..], q);
    }
  }

  /**
   * The three tiers of a match on the lower-cased strings: a prefix scores 100, any other
   * occurrence 80, a scattered match ten per query character.
   */
  lemma FuzzyScoreTiers(query: string, target: string)
    requires query != [] && target != []
    ensures IsPrefix(Lower(query), Lower(target)) ==> FuzzyScore(query, target) == 100
    ensures !IsPrefix(Lower(query), Lower(target)) && Contains(Lower(target), Lower(query)) ==> FuzzyScore(query, target) == 80
    ensures !Contains(Lower(target), Lower(query)) ==>
      FuzzyScore(query, target) == if Subsequence(Lower(query), Lower(target)) then 10 * |query| else 0
  {
    GreedyComplete(Lower(query), Lower(target));
  }

  /** A non-empty query scores above zero exactly when it is, ignoring ASCII case, a subsequence of the target. */
  lemma FuzzyScorePositive(query: string, target: string)
    requires query != []
    ensures FuzzyScore(query, target) > 0 <==> Subsequence(Lower(query), Lower(target))
  {
    var q, t := Lower(query), Lower(target);
    GreedyComplete(q, t);
    if Contains(t, q) {
      ContainsSubsequence(t, q);
    }
  }

  /**
   * A scattered match of a query longer than ten characters outscores any prefix match of
   * the same query: the per-character score is not capped.
   */
  lemma LongScatteredOutranksPrefix(query: string, scattered: string, prefixed: string)
    requires |query| > 10 && prefixed != [] && IsPrefix(Lower(query), Lower(prefixed))
    requires Subsequence(Lower(query), Lower(scattered)) && !Contains(Lower(scattered), Lower(query))
    ensures FuzzyScore(query, scattered) > FuzzyScore(query, prefixed)
  {
    FuzzyScoreTiers(query, scattered);
  }

  /** One step of the greedy scan from query position `j` and target position `i`. */
  lemma GreedyStep(q: string, t: string, j: nat, i: nat)
    requires j < |q| && i < |t|
    ensures Greedy(q[j..], t[i..]) == if t[i] == q[j] then 1 + Greedy(q[j + 1..], t[i + 1..]) else Greedy(q[j..], t[i + 1..])
  {
    assert q[j..][1..] == q[j + 1..] && t[i..][1..] == t[i + 1..];
  }

  /** `fuzzyMatch` as written: the prefix and contains checks, then a scan advancing through the query on each hit. */
  method FuzzyMatch(query: string, target: string) returns (result: nat)
    ensures result == FuzzyScore(query, target)
  {
    if query == [] || target == [] {
      return 0;
    }
    var q := Lower(query);
    var t := Lower(target);
    if IsPrefix(q, t) {
      return 100;
    }
    if Contains(t, q) {
      return 80;
    }
    result := ScatteredScore(q, t);
  }

  /** The scan of `fuzzyMatch`: ten points per query character matched, kept only when all of them are. */
  method ScatteredScore(q: string, t: string) returns (result: nat)
    ensures result == if Greedy(q, t) == |q| then 10 * |q| else 0
  {
    var qIdx := 0;
    var score := 0;
    var i := 0;
    while i < |t| && qIdx < |q|
      invariant 0 <= i <= |t| && 0 <= qIdx <= |q|
      invariant score == 10 * qIdx
      invariant qIdx + Greedy(q[qIdx..], t[i..]) == Greedy(q, t)
    {
      GreedyStep(q, t, qIdx, i);
      if t[i] == q[qIdx] {
        score := score + 10;
        qIdx := qIdx + 1;
      }
      i := i + 1;
    }
    result := if qIdx == |q| then score else 0;
  }

  // ---------------------------------------------------------------------------
  // Building the list.

  datatype SuggestionKind = DomainKind | HistoryKind | ArchivedKind | TrailKind

  datatype Suggestion = Suggestion(
    kind: SuggestionKind,
    title: string,
    url: string,
    icon: Option<string>,
    favicon: Option<string>,
    score: int)

  datatype CommonDomain = CommonDomain(domain: string, title: string, icon: string)

  /** At most this many suggestions are shown. */
  const MaxSuggestions := 8

  const CommonDomains: seq<CommonDomain> := [
    CommonDomain("youtube.com", "YouTube", "\U{1F3AC}"),
    CommonDomain("github.com", "GitHub", "\U{1F4BB}"),
    CommonDomain("twitter.com", "Twitter / X", "\U{1F426}"),
    CommonDomain("reddit.com", "Reddit", "\U{1F916}"),
    CommonDomain("stackoverflow.com", "Stack Overflow", "\U{1F4DA}"),
    CommonDomain("google.com", "Google", "\U{1F50D}"),
    CommonDomain("wikipedia.org", "Wikipedia", "\U{1F4D6}"),
    CommonDomain("amazon.com", "Amazon", "\U{1F6D2}"),
    CommonDomain("netflix.com", "Netflix", "\U{1F3A5}"),
    CommonDomain("spotify.com", "Spotify", "\U{1F3B5}"),
    CommonDomain("linkedin.com", "LinkedIn", "\U{1F4BC}"),
    CommonDomain("twitch.tv", "Twitch", "\U{1F3AE}"),
    CommonDomain("discord.com", "Discord", "\U{1F4AC}"),
    CommonDomain("notion.so", "Notion", "\U{1F4DD}"),
    CommonDomain("figma.com", "Figma", "\U{1F3A8}"),
    CommonDomain("vercel.com", "Vercel", "\U{25B2}"),
    CommonDomain("npm.js.com", "npm", "\U{1F4E6}"),
    CommonDomain("docs.google.com", "Google Docs", "\U{1F4C4}"),
    CommonDomain("drive.google.com", "Google Drive", "\U{2601}\U{FE0F}"),
    CommonDomain("mail.google.com", "Gmail", "\U{2709}\U{FE0F}")
  ]

  /** The box icon of archived suggestions. */
  const ArchiveIcon := "\U{1F4E6}"

  /** `a || b` on strings. */
  function OrText(a: string, b: string): string {
    if a != "" then a else b
  }

  /** `fuzzyMatch(q, domain) || fuzzyMatch(q, title)`. */
  function DomainScore(q: string, d: CommonDomain): (r: nat)
    ensures r > 0 <==> FuzzyScore(q, d.domain) > 0 || FuzzyScore(q, d.title) > 0
  {
    var s := FuzzyScore(q, d.domain);
    if s != 0 then s else FuzzyScore(q, d.title)
  }

  /** The better of a trail's title and url scores. */
  function PageScore(q: string, node: TrailNode): (r: nat)
    ensures r >= FuzzyScore(q, node.title) && r >= FuzzyScore(q, node.url)
    ensures r == FuzzyScore(q, node.title) || r == FuzzyScore(q, node.url)
  {
    var a := FuzzyScore(q, node.title);
    var b := FuzzyScore(q, node.url);
    if a < b then b else a
  }

  function DomainSuggestion(q: string, d: CommonDomain): Suggestion {
    Suggestion(DomainKind, d.title, "https://" + d.domain, Some(d.icon), None, DomainScore(q, d))
  }

  function TrailSuggestion(q: string, node: TrailNode): Suggestion {
    Suggestion(TrailKind, OrText(node.customName.GetOr(""), OrText(node.title, node.url)), node.url,
      None, node.favicon, PageScore(q, node) - 5)
  }

  function ArchivedSuggestion(q: string, root: TrailNode): Suggestion {
    Suggestion(ArchivedKind, OrText(root.customName.GetOr(""), OrText(root.title, OrText(root.url, "Archived Trail"))),
      root.url, Some(ArchiveIcon), root.favicon, PageScore(q, root) - 10)
  }

  /** The suggestions of the domains that match, in list order. */
  function DomainCandidates(q: string, ds: seq<CommonDomain>): (r: seq<Suggestion>)
    ensures forall d :: d in ds && DomainScore(q, d) > 0 ==> DomainSuggestion(q, d) in r
    ensures forall s :: s in r ==>
      (s.kind == DomainKind && s.score > 0 && exists d :: d in ds && s == DomainSuggestion(q, d))
    decreases |ds|
  {
    if ds == [] then []
    else
      var d := ds[|ds| - 1];
      var rest := DomainCandidates(q, ds[..|ds| - 1]);
      if DomainScore(q, d) > 0 then rest + [DomainSuggestion(q, d)] else rest
  }

  /** The suggestions of the open link trails that match, five below their score. */
  function TrailCandidates(q: string, nodes: seq<TrailNode>): (r: seq<Suggestion>)
    ensures forall n :: n in nodes && n.nodeType == Link && PageScore(q, n) > 0 ==> TrailSuggestion(q, n) in r
    ensures forall s :: s in r ==>
      (s.kind == TrailKind && s.score > -5 && exists n :: n in nodes && n.nodeType == Link && s == TrailSuggestion(q, n))
    decreases |nodes|
  {
    if nodes == [] then []
    else
      var n := nodes[|nodes| - 1];
      var rest := TrailCandidates(q, nodes[..|nodes| - 1]);
      if n.nodeType == Link && PageScore(q, n) > 0 then rest + [TrailSuggestion(q, n)] else rest
  }

  /** The suggestions of the archived trails that match, ten below their score. */
  function ArchivedCandidates(q: string, closed: seq<ClosedTrailEntry>): (r: seq<Suggestion>)
    ensures forall c :: c in closed && PageScore(q, c.rootNode) > 0 ==> ArchivedSuggestion(q, c.rootNode) in r
    ensures forall s :: s in r ==>
      (s.kind == ArchivedKind && s.score > -10 && exists c :: c in closed && s == ArchivedSuggestion(q, c.rootNode))
    decreases |closed|
  {
    if closed == [] then []
    else
      var c := closed[|closed| - 1];
      var rest := ArchivedCandidates(q, closed[..|closed| - 1]);
      if PageScore(q, c.rootNode) > 0 then rest + [ArchivedSuggestion(q, c.rootNode)] else rest
  }

  /** One more domain adds its suggestion exactly when it matches. */
  lemma DomainCandidatesStep(q: string, ds: seq<CommonDomain>, i: nat, results: seq<Suggestion>, r: seq<Suggestion>)
    requires i < |ds| && r == results + DomainCandidates(q, ds[..i])
    ensures (if DomainScore(q, ds[i]) > 0 then r + [DomainSuggestion(q, ds[i])] else r)
         == results + DomainCandidates(q, ds[..i + 1])
  {
    assert ds[..i + 1][..i] == ds[..i];
  }

  /** One more open trail adds its suggestion exactly when it is a link and matches. */
  lemma TrailCandidatesStep(q: string, nodes: seq<TrailNode>, i: nat, results: seq<Suggestion>, r: seq<Suggestion>)
    requires i < |nodes| && r == results + TrailCandidates(q, nodes[..i])
    ensures (if nodes[i].nodeType == Link && PageScore(q, nodes[i]) > 0 then r + [TrailSuggestion(q, nodes[i])] else r)
         == results + TrailCandidates(q, nodes[..i + 1])
  {
    assert nodes[..i + 1][..i] == nodes[..i];
  }

  /** One more archived trail adds its suggestion exactly when it matches. */
  lemma ArchivedCandidatesStep(q: string, closed: seq<ClosedTrailEntry>, i: nat, results: seq<Suggestion>, r: seq<Suggestion>)
    requires i < |closed| && r == results + ArchivedCandidates(q, closed[..i])
    ensures (if PageScore(q, closed[i].rootNode) > 0 then r + [ArchivedSuggestion(q, closed[i].rootNode)] else r)
         == results + ArchivedCandidates(q, closed[..i + 1])
  {
    assert closed[..i + 1][..i] == closed[..i];
  }

  /** Every suggestion scores at least as much as the one after it. */
  predicate Ranked(s: seq<Suggestion>) {
    forall i, j :: 0 <= i < j < |s| ==> s[i].score >= s[j].score
  }

  /** Place `x` after the last entry of `sorted` scoring at least as much, scanning from the end. */
  function InsertByScore(sorted: seq<Suggestion>, x: Suggestion): (r: seq<Suggestion>)
    ensures multiset(r) == multiset(sorted) + multiset{x}
    ensures forall k :: 0 <= k < |r| ==> r[k] == x || r[k] in sorted
    decreases |sorted|
  {
    if sorted == [] || sorted[|sorted| - 1].score >= x.score then sorted + [x]
    else
      var init := sorted[..|sorted| - 1];
      assert sorted == init + [sorted[|sorted| - 1]];
      InsertByScore(init, x) + [sorted[|sorted| - 1]]
  }

  /** Inserting into a ranked list keeps it ranked. */
  lemma {:induction false} InsertByScoreRanked(sorted: seq<Suggestion>, x: Suggestion)
    requires Ranked(sorted)
    ensures Ranked(InsertByScore(sorted, x))
    decreases |sorted|
  {
    if sorted != [] && sorted[|sorted| - 1].score < x.score {
      var init := sorted[..|sorted| - 1];
      var last := sorted[|sorted| - 1];
      InsertByScoreRanked(init, x);
      var r := InsertByScore(init, x);
      assert forall k :: 0 <= k < |r| ==> r[k].score >= last.score;
      assert forall k :: 0 <= k < |r| ==> (r + [last])[k] == r[k];
    }
  }

  /** `results.sort((a, b) => b.score - a.score)`: a stable sort by non-increasing score. */
  function SortByScore(s: seq<Suggestion>): (r: seq<Suggestion>)
    ensures Ranked(r)
    ensures multiset(r) == multiset(s)
    decreases |s|
  {
    if s == [] then []
    else
      assert s == s[..|s| - 1] + [s[|s| - 1]];
      var sorted := SortByScore(s[..|s| - 1]);
      InsertByScoreRanked(sorted, s[|s| - 1]);
      InsertByScore(sorted, s[|s| - 1])
  }

  /** `results.slice(0, 8)` */
  function Top(s: seq<Suggestion>): (r: seq<Suggestion>)
    ensures r <= s
    ensures |r| == if |s| < MaxSuggestions then |s| else MaxSuggestions
  {
    if |s| <= MaxSuggestions then s else s[..MaxSuggestions]
  }

  /** Every candidate, in the order the three loops push them. */
  function Candidates(query: string, nodes: seq<TrailNode>, closed: seq<ClosedTrailEntry>): seq<Suggestion> {
    var q := Lower(query);
    DomainCandidates(q, CommonDomains) + TrailCandidates(q, nodes) + ArchivedCandidates(q, closed)
  }

  /**
   * The suggestion list of the first effect; `nodes` is `Object.values(nodes)`, in
   * enumeration order.
   */
  function SuggestionList(query: string, nodes: seq<TrailNode>, closed: seq<ClosedTrailEntry>): (r: seq<Suggestion>)
    ensures query == [] ==> r == []
    ensures |r| <= MaxSuggestions
  {
    if query == [] then [] else Top(SortByScore(Candidates(query, nodes, closed)))
  }

  /** The first eight of a ranked list are ranked, come from it, and score at least as much as any entry left out. */
  lemma TopBest(sorted: seq<Suggestion>)
    requires Ranked(sorted)
    ensures var r := Top(sorted);
      |r| <= MaxSuggestions && Ranked(r) && multiset(r) <= multiset(sorted) &&
      forall c, j :: c in sorted && c !in r && 0 <= j < |r| ==> c.score <= r[j].score
  {
    var r := Top(sorted);
    if |sorted| > MaxSuggestions {
      assert sorted == r + sorted[MaxSuggestions..];
      assert multiset(sorted) == multiset(r) + multiset(sorted[MaxSuggestions..]);
    }
    forall c, j | c in sorted && c !in r && 0 <= j < |r|
      ensures c.score <= r[j].score
    {
      var k :| 0 <= k < |sorted| && sorted[k] == c;
      assert k >= |r|;
    }
  }

  /**
   * The shown list is at most eight entries ranked by score, drawn from the candidates, and
   * no candidate left out scores above a shown one.
   */
  lemma SuggestionListBest(query: string, nodes: seq<TrailNode>, closed: seq<ClosedTrailEntry>)
    ensures var r := SuggestionList(query, nodes, closed);
      |r| <= MaxSuggestions && Ranked(r) && multiset(r) <= multiset(Candidates(query, nodes, closed)) &&
      (query == [] ==> r == []) &&
      forall c, j :: c in Candidates(query, nodes, closed) && c !in r && 0 <= j < |r| ==> c.score <= r[j].score
  {
    if query != [] {
      var all := Candidates(query, nodes, closed);
      var sorted := SortByScore(all);
      TopBest(sorted);
      forall c | c in all
        ensures c in sorted
      {
        assert c in multiset(sorted);
      }
    }
  }

  /** Every shown suggestion matches the query: a common domain, an open link trail or an archived trail. */
  lemma SuggestionListSources(query: string, nodes: seq<TrailNode>, closed: seq<ClosedTrailEntry>)
    ensures forall s :: s in SuggestionList(query, nodes, closed) ==>
      (s.kind == DomainKind && s.score > 0) ||
      (s.kind == TrailKind && s.score > -5 && exists n :: n in nodes && n.nodeType == Link && s == TrailSuggestion(Lower(query), n)) ||
      (s.kind == ArchivedKind && s.score > -10 && exists c :: c in closed && s == ArchivedSuggestion(Lower(query), c.rootNode))
  {
    SuggestionListBest(query, nodes, closed);
    forall s | s in SuggestionList(query, nodes, closed)
      ensures s in Candidates(query, nodes, closed)
    {
      assert s in multiset(SuggestionList(query, nodes, closed));
    }
  }

  /** The first loop: push a suggestion for each domain whose name or title matches. */
  method PushDomainMatches(q: string, ds: seq<CommonDomain>, results: seq<Suggestion>) returns (r: seq<Suggestion>)
    ensures r == results + DomainCandidates(q, ds)
  {
    r := results;
    for i := 0 to |ds|
      invariant r == results + DomainCandidates(q, ds[..i])
    {
      var d := ds[i];
      var domainScore := FuzzyMatch(q, d.domain);
      if domainScore == 0 {
        domainScore := FuzzyMatch(q, d.title);
      }
      assert domainScore == DomainScore(q, d);
      DomainCandidatesStep(q, ds, i, results, r);
      if domainScore > 0 {
        r := r + [Suggestion(DomainKind, d.title, "https://" + d.domain, Some(d.icon), None, domainScore)];
      }
    }
    assert ds[..|ds|] == ds;
  }

  /** `Math.max(fuzzyMatch(q, title), fuzzyMatch(q, url))`, as the second and third loops compute it. */
  method MatchPage(q: string, node: TrailNode) returns (score: nat)
    ensures score == PageScore(q, node)
  {
    var titleScore := FuzzyMatch(q, node.title);
    var urlScore := FuzzyMatch(q, node.url);
    score := if titleScore < urlScore then urlScore else titleScore;
  }

  /** The second loop: push a suggestion, five points down, for each open link trail whose title or url matches. */
  method PushTrailMatches(q: string, nodes: seq<TrailNode>, results: seq<Suggestion>) returns (r: seq<Suggestion>)
    ensures r == results + TrailCandidates(q, nodes)
  {
    r := results;
    for i := 0 to |nodes|
      invariant r == results + TrailCandidates(q, nodes[..i])
    {
      var node := nodes[i];
      TrailCandidatesStep(q, nodes, i, results, r);
      if node.nodeType == Link {
        var score := MatchPage(q, node);
        if score > 0 {
          r := r + [TrailSuggestion(q, node)];
        }
      }
    }
    assert nodes[..|nodes|] == nodes;
  }

  /** The third loop: push a suggestion, ten points down, for each archived trail whose title or url matches. */
  method PushArchivedMatches(q: string, closed: seq<ClosedTrailEntry>, results: seq<Suggestion>) returns (r: seq<Suggestion>)
    ensures r == results + ArchivedCandidates(q, closed)
  {
    r := results;
    for i := 0 to |closed|
      invariant r == results + ArchivedCandidates(q, closed[..i])
    {
      var rootNode := closed[i].rootNode;
      var score := MatchPage(q, rootNode);
      ArchivedCandidatesStep(q, closed, i, results, r);
      if score > 0 {
        r := r + [ArchivedSuggestion(q, rootNode)];
      }
    }
    assert closed[..|closed|] == closed;
  }

  /**
   * The first effect as written: three loops pushing the matching candidates, then the sort
   * and the cut to eight.
   */
  method BuildSuggestions(query: string, nodes: seq<TrailNode>, closed: seq<ClosedTrailEntry>)
    returns (suggestions: seq<Suggestion>)
    ensures suggestions == SuggestionList(query, nodes, closed)
  {
    if query == [] {
      return [];
    }
    var q := Lower(query);
    var results := PushDomainMatches(q, CommonDomains, []);
    assert results == DomainCandidates(q, CommonDomains);
    results := PushTrailMatches(q, nodes, results);
    results := PushArchivedMatches(q, closed, results);
    assert results == Candidates(query, nodes, closed);
    results := SortByScore(results);
    suggestions := Top(results);
  }
}
