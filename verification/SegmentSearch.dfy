/** Searching one segment with a query (ferret-core/src/multi_search.rs). */
module SegmentSearch {
  // Trigram candidates, smallest files first, tombstones, metadata pre-filters, then evaluation of the query on each
  // surviving file.

  import opened Base
  import opened Context
  import opened IndexReader
  import opened Intersection
  import opened PostingLists
  import opened Query
  import opened QueryMatch
  import opened QueryTrigrams
  import opened Sorting
  import opened Trigrams
  import opened Verify

  datatype FileRecord = FileRecord(path: bytes, content: bytes, language: Language, size: u32)

  /** File ids are positions in `files`, as the segment writer assigns them. */
  datatype Segment = Segment(id: u32, files: seq<FileRecord>, dead: set<u32>, reader: Reader)

  /** What comes from outside: the regex engine, the regex compiler and the ranking formula. */
  datatype Env = Env(engine: Engine, regex: RegexCompiler, score: (FileRecord, nat) -> int)

  datatype FileMatch = FileMatch(fileId: u32, path: bytes, language: Language, lines: seq<LineMatch>, score: int)

  function Contents(files: seq<FileRecord>): (r: Files)
    requires |files| <= U32_MAX
    ensures |r| == |files| && forall i :: 0 <= i < |r| ==> r[i] == (i, files[i].content)
  {
    seq(|files|, i requires 0 <= i < |files| => (i, files[i].content))
  }

  /** The segment's trigram index was written from its own files, numbered from zero. */
  ghost predicate Indexed(segment: Segment) {
    |segment.files| <= U32_MAX && Serves(segment.reader, Contents(segment.files))
  }

  /** Segments are written by a file-only builder that is fed ids 0, 1, 2, ...; such a segment is indexed. */
  lemma WrittenSegmentIndexed(
      id: u32, records: seq<FileRecord>, dead: set<u32>, es: seq<IndexImage.Entry>,
      files: map<Trigram, seq<u32>>, positions: map<Trigram, seq<Codec.Posting>>)
    requires |records| <= U32_MAX
    requires FinalMaps(files, positions, false, Contents(records))
    requires IndexImage.IsTable(es, files, positions) && IndexImage.Fits(es)
    ensures var reader := OpenIndex(IndexImage.Image(es));
            reader.Ok? && Indexed(Segment(id, records, dead, reader.value))
  {
    hide FinalMaps, IndexImage.IsTable, IndexImage.Fits, Serves, OpenIndex, IndexImage.Image, ReaderOf;
    BuiltReaderServes(es, files, positions, false, Contents(records));
  }

  function FileTrigrams(segment: Segment, id: u32): set<Trigram> {
    if id < |segment.files| then FoldedSet(segment.files[id].content) else {}
  }

  lemma HasTrigramIs(segment: Segment, id: u32, t: Trigram)
    requires Indexed(segment)
    ensures HasTrigram(Contents(segment.files), id, t)
       <==> id < |segment.files| && t in FoldedSet(segment.files[id].content)
  {
    var added := Contents(segment.files);
    if id < |segment.files| && t in FoldedSet(segment.files[id].content) {
      assert added[id].0 == id && t in FoldedSet(added[id].1);
    }
  }

  function AllFileIds(segment: Segment): (r: seq<u32>)
    requires |segment.files| <= U32_MAX
    ensures |r| == |segment.files| && forall i :: 0 <= i < |r| ==> r[i] == i
  {
    seq(|segment.files|, i requires 0 <= i < |segment.files| => i)
  }

  // ---- candidates ----

  ghost predicate CandidatesFor(segment: Segment, ids: seq<u32>, tq: TrigramQuery) {
    && Increasing(ids)
    && forall x: u32 :: x in ids <==> x < |segment.files| && Admits(tq, FileTrigrams(segment, x))
  }

  function EstimateKey(reader: Reader): Trigram -> int
    requires WellFormed(reader)
  {
    t => EstimatePostingListSize(reader, t)
  }

  /** The trigrams in the arbitrary order of the hash set, then stably sorted by estimated list size. */
  method ScoreTrigrams(reader: Reader, trigrams: set<Trigram>) returns (scored: seq<Trigram>)
    requires WellFormed(reader)
    ensures |scored| == |trigrams| && forall t :: t in scored <==> t in trigrams
    ensures SortedBy(scored, EstimateKey(reader))
  {
    var todo := trigrams;
    scored := [];
    while todo != {}
      invariant todo <= trigrams && |scored| + |todo| == |trigrams|
      invariant forall t :: t in scored <==> t in trigrams && t !in todo
    {
      var t :| t in todo;
      scored := scored + [t];
      todo := todo - {t};
    }
    SortBySorted(scored, EstimateKey(reader));
    scored := SortBy(scored, EstimateKey(reader));
  }

  ghost predicate ListedAll(reader: Reader, x: u32, ts: seq<Trigram>)
    requires WellFormed(reader)
  {
    forall i :: 0 <= i < |ts| ==> Listed(reader, x, ts[i])
  }

  method IntersectSmallestFirst(segment: Segment, trigrams: set<Trigram>) returns (r: Result<seq<u32>>)
    requires |segment.files| <= U32_MAX && WellFormed(segment.reader)
    ensures Indexed(segment) ==> r.Ok? && CandidatesFor(segment, r.value, All(trigrams))
  {
    hide LookupFileIds, EstimatePostingListSize, WellFormed, Increasing, Nondecreasing, Listed, Serves, FileTrigrams;
    var reader := segment.reader;
    if trigrams == {} {
      if Indexed(segment) { AllIdsAdmitted(segment); }
      return Ok(AllFileIds(segment));
    }
    var scored := ScoreTrigrams(reader, trigrams);
    if EstimatePostingListSize(reader, scored[0]) == 0 {
      if Indexed(segment) { EmptyListNoCandidates(segment, trigrams, scored[0]); }
      return Ok([]);
    }
    var first := LookupFileIds(reader, scored[0]);
    if first.Err? {
      if Indexed(segment) { ServedLookup(segment, scored[0]); }
      return Err(first.error);
    }
    var result := first.value;
    LookupSorted(reader, scored[0]);
    if Indexed(segment) { ServedLookup(segment, scored[0]); }
    if result == [] { return Ok([]); }
    forall x: u32 ensures x in result <==> ListedAll(reader, x, scored[..1]) { ListedOne(reader, x, scored); }
    for k := 1 to |scored|
      invariant Nondecreasing(result)
      invariant Indexed(segment) ==> Increasing(result)
      invariant forall x: u32 :: x in result <==> ListedAll(reader, x, scored[..k])
    {
      var list := LookupFileIds(reader, scored[k]);
      if list.Err? {
        if Indexed(segment) { ServedLookup(segment, scored[k]); }
        return Err(list.error);
      }
      LookupSorted(reader, scored[k]);
      forall x: u32 ensures ListedAll(reader, x, scored[..k + 1])
        <==> ListedAll(reader, x, scored[..k]) && x in list.value
      {
        ListedAllStep(reader, x, scored, k);
      }
      result := IntersectTwo(result, list.value);
      if result == [] {
        if Indexed(segment) { ListedGivesCandidates(segment, trigrams, scored, k + 1, []); }
        return Ok([]);
      }
    }
    if Indexed(segment) { ListedGivesCandidates(segment, trigrams, scored, |scored|, result); }
    r := Ok(result);
  }

  lemma ListedOne(reader: Reader, x: u32, ts: seq<Trigram>)
    requires WellFormed(reader) && ts != [] && LookupFileIds(reader, ts[0]).Ok?
    ensures x in LookupFileIds(reader, ts[0]).value <==> ListedAll(reader, x, ts[..1])
  {
    hide LookupFileIds, WellFormed;
    if ListedAll(reader, x, ts[..1]) { assert Listed(reader, x, ts[..1][0]); }
  }

  lemma ListedAllStep(reader: Reader, x: u32, ts: seq<Trigram>, k: nat)
    requires WellFormed(reader) && k < |ts| && LookupFileIds(reader, ts[k]).Ok?
    ensures ListedAll(reader, x, ts[..k + 1])
       <==> ListedAll(reader, x, ts[..k]) && x in LookupFileIds(reader, ts[k]).value
  {
    hide LookupFileIds, WellFormed;
    var longer := ts[..k + 1];
    assert forall i :: 0 <= i < k ==> longer[i] == ts[..k][i];
    if ListedAll(reader, x, longer) { assert Listed(reader, x, longer[k]); }
  }

  lemma ServedLookup(segment: Segment, t: Trigram)
    requires Indexed(segment)
    ensures WellFormed(segment.reader) && LookupFileIds(segment.reader, t).Ok?
    ensures Increasing(LookupFileIds(segment.reader, t).value)
    ensures EstimatePostingListSize(segment.reader, t) == |LookupFileIds(segment.reader, t).value|
    ensures forall x: u32 :: Listed(segment.reader, x, t) <==> x < |segment.files| && t in FileTrigrams(segment, x)
  {
    hide LookupFileIds, EstimatePostingListSize, WellFormed, Increasing, HasTrigram;
    assert ServesTrigram(segment.reader, Contents(segment.files), t);
    forall x: u32 ensures Listed(segment.reader, x, t) <==> x < |segment.files| && t in FileTrigrams(segment, x) {
      HasTrigramIs(segment, x, t);
    }
  }

  lemma AllIdsAdmitted(segment: Segment)
    requires Indexed(segment)
    ensures CandidatesFor(segment, AllFileIds(segment), All({}))
    ensures CandidatesFor(segment, AllFileIds(segment), NoTrigrams)
  {
    var ids := AllFileIds(segment);
    forall x: u32 ensures x in ids <==> x < |segment.files| {
      if x < |segment.files| { assert ids[x] == x; }
    }
  }

  lemma EmptyListNoCandidates(segment: Segment, trigrams: set<Trigram>, t: Trigram)
    requires Indexed(segment) && t in trigrams && EstimatePostingListSize(segment.reader, t) == 0
    ensures CandidatesFor(segment, [], All(trigrams))
  {
    hide EstimatePostingListSize, LookupFileIds, FileTrigrams, Listed;
    ServedLookup(segment, t);
    forall x: u32 | x < |segment.files| ensures !(trigrams <= FileTrigrams(segment, x)) {
      assert !Listed(segment.reader, x, t) by { NotListed(segment.reader, x, t); }
    }
  }

  lemma NotListed(reader: Reader, x: u32, t: Trigram)
    requires WellFormed(reader) && LookupFileIds(reader, t).Ok? && |LookupFileIds(reader, t).value| == 0
    ensures !Listed(reader, x, t)
  {
    hide LookupFileIds, WellFormed;
  }

  lemma ListedGivesCandidates(
      segment: Segment, trigrams: set<Trigram>, scored: seq<Trigram>, k: nat, result: seq<u32>)
    requires Indexed(segment) && trigrams != {} && 1 <= k <= |scored|
    requires forall t :: t in scored <==> t in trigrams
    requires Increasing(result) && forall x: u32 :: x in result <==> ListedAll(segment.reader, x, scored[..k])
    requires k == |scored| || result == []
    ensures CandidatesFor(segment, result, All(trigrams))
  {
    hide LookupFileIds, EstimatePostingListSize, WellFormed, Increasing, Listed, FileTrigrams;
    forall x: u32 ensures x in result <==> x < |segment.files| && trigrams <= FileTrigrams(segment, x) {
      if x in result {
        forall t | t in trigrams ensures x < |segment.files| && t in FileTrigrams(segment, x) {
          var i :| 0 <= i < |scored| && scored[i] == t;
          assert Listed(segment.reader, x, scored[..k][i]);
          ServedLookup(segment, t);
        }
        assert scored[0] in trigrams;
      }
      if x < |segment.files| && trigrams <= FileTrigrams(segment, x) {
        forall i | 0 <= i < k ensures Listed(segment.reader, x, scored[..k][i]) {
          assert scored[i] in trigrams;
          ServedLookup(segment, scored[i]);
        }
        assert ListedAll(segment.reader, x, scored[..k]);
      }
    }
  }

  function IdKey(x: u32): int { x }

  /** Candidates of a trigram query; the branches of an Any are united, sorted and deduplicated. */
  method LookupTrigramCandidates(segment: Segment, tq: TrigramQuery) returns (r: Result<seq<u32>>)
    requires |segment.files| <= U32_MAX && WellFormed(segment.reader)
    ensures Indexed(segment) ==> r.Ok? && CandidatesFor(segment, r.value, tq)
  {
    hide LookupFileIds, EstimatePostingListSize, WellFormed, Increasing, Nondecreasing, Serves, FileTrigrams;
    match tq {
      case All(trigrams) =>
        if trigrams == {} {
          if Indexed(segment) { AllIdsAdmitted(segment); }
          return Ok(AllFileIds(segment));
        }
        r := IntersectSmallestFirst(segment, trigrams);
      case Any(branches) =>
        var all: seq<u32> := [];
        for k := 0 to |branches|
          invariant Indexed(segment) ==> forall x: u32 ::
            x in all <==> x < |segment.files| && AnyBranch(branches[..k], FileTrigrams(segment, x))
        {
          var candidates := IntersectSmallestFirst(segment, branches[k]);
          if candidates.Err? { return candidates; }
          forall x: u32 ensures AnyBranch(branches[..k + 1], FileTrigrams(segment, x))
            <==> AnyBranch(branches[..k], FileTrigrams(segment, x)) || branches[k] <= FileTrigrams(segment, x)
          {
            AnyBranchStep(branches, k, FileTrigrams(segment, x));
          }
          all := all + candidates.value;
        }
        assert branches[..|branches|] == branches;
        SortBySorted(all, IdKey);
        var sorted := SortBy(all, IdKey);
        SortedNondecreasing(sorted);
        DedupIncreasing(sorted);
        r := Ok(Dedup(sorted));
      case NoTrigrams =>
        if Indexed(segment) { AllIdsAdmitted(segment); }
        return Ok(AllFileIds(segment));
    }
  }

  lemma SortedNondecreasing(s: seq<u32>)
    requires SortedBy(s, IdKey)
    ensures Nondecreasing(s)
  {
    forall i, j | 0 <= i < j < |s| ensures s[i] <= s[j] { assert IdKey(s[i]) <= IdKey(s[j]); }
  }

  lemma AnyBranchStep(bs: seq<Branch>, k: nat, file: Branch)
    requires k < |bs|
    ensures AnyBranch(bs[..k + 1], file) <==> AnyBranch(bs[..k], file) || bs[k] <= file
  {
    var longer, shorter := bs[..k + 1], bs[..k];
    if AnyBranch(longer, file) {
      var i :| 0 <= i < |longer| && longer[i] <= file;
      if i < k { assert shorter[i] <= file; }
    }
    if AnyBranch(shorter, file) { var i :| 0 <= i < |shorter| && shorter[i] <= file; assert longer[i] <= file; }
    if bs[k] <= file { assert longer[k] <= file; }
  }

  // ---- the extraction never loses a match ----

  /** The engine's matches of a case-insensitive literal differ from it only by ASCII case. */
  ghost predicate AsciiFolding(engine: Engine, text: bytes, content: bytes) {
    forall i: nat :: i <= |content| && engine(Insensitive(text), content, i).Some? ==>
      i + engine(Insensitive(text), content, i).value == i + |text| && FoldsTo(content, i, text)
  }

  /** Terms outside negations whose index lookup rests on the regex engine keep their promise on this content. */
  ghost predicate TermsSound(env: Env, query: Query, content: bytes) {
    match query
    case Literal(text, cs) => cs || |text| < 3 || AsciiFolding(env.engine, text, content)
    case Phrase(text, cs) => cs || |text| < 3 || AsciiFolding(env.engine, text, content)
    case Regex(pattern, cs) =>
      Matches(env.engine, RegexPattern(pattern, cs), content) ==> Admits(env.regex(pattern), FoldedSet(content))
    case PathFilter(_) => true
    case LanguageFilter(_) => true
    case Not(_) => true
    case Or(left, right) => TermsSound(env, left, content) && TermsSound(env, right, content)
    case And(children) => forall i :: 0 <= i < |children| ==> TermsSound(env, children[i], content)
  }

  /** No merge in the compilation of the query cuts off a branch that matters. */
  ghost predicate CapSafe(env: Env, query: Query) {
    match query
    case Or(left, right) => CapSafe(env, left) && CapSafe(env, right)
    case And(children) =>
      forall i :: 0 <= i < |children| ==>
        && CapSafe(env, children[i])
        && CapHarmless(ExtractAnd(children[..i], env.regex), Extract(children[i], env.regex))
    case _ => true
  }

  lemma LiteralAdmits(env: Env, text: bytes, cs: bool, content: bytes)
    requires Matches(env.engine, LeafPattern(text, cs), content)
    requires cs || |text| < 3 || AsciiFolding(env.engine, text, content)
    ensures Admits(ExtractLiteral(text), FoldedSet(content))
  {
    hide FoldedSet;
    if |text| < 3 {
      return;
    }
    if cs {
      var i: nat :| OccursAt(text, content, i);
      assert FoldsTo(content, i, text);
    } else {
      var i: nat :| i <= |content| && env.engine(Insensitive(text), content, i).Some?;
      assert FoldsTo(content, i, text);
    }
    OccurrenceHasTrigrams(text, content);
  }

  /** Every file the query matches is admitted by the trigrams extracted from it. */
  lemma {:induction false} ExtractAdmits(env: Env, query: Query, content: bytes)
    requires RegexBranches(env.regex) && CapSafe(env, query) && TermsSound(env, query, content)
    requires Holds(env.engine, query, content)
    ensures Admits(Extract(query, env.regex), FoldedSet(content))
    decreases query, 0
  {
    hide FoldedSet, Matches, AsciiFolding, FromBranches;
    match query
    case Literal(text, cs) => LiteralAdmits(env, text, cs, content);
    case Phrase(text, cs) => LiteralAdmits(env, text, cs, content);
    case Or(left, right) =>
      if Holds(env.engine, left, content) { ExtractAdmits(env, left, content); }
      else { ExtractAdmits(env, right, content); }
      ExtractHasBranches(left, env.regex);
      ExtractHasBranches(right, env.regex);
      OrAdmits(Extract(left, env.regex), Extract(right, env.regex), FoldedSet(content));
    case And(children) =>
      assert children[..|children|] == children;
      ExtractAndAdmits(env, children, content, |children|);
    case _ =>
  }

  lemma OrAdmits(l: TrigramQuery, r: TrigramQuery, file: Branch)
    requires Admits(l, file) || Admits(r, file)
    requires HasBranches(l) && HasBranches(r)
    ensures l.NoTrigrams? || r.NoTrigrams? || Admits(FromBranches(BranchesOf(l) + BranchesOf(r)), file)
  {
    hide FromBranches;
    if !l.NoTrigrams? && !r.NoTrigrams? {
      BranchesDenote(l, file);
      BranchesDenote(r, file);
      AnyConcat(BranchesOf(l), BranchesOf(r), file);
      FromBranchesDenotes(BranchesOf(l) + BranchesOf(r), file);
    }
  }

  lemma {:induction false} ExtractAndAdmits(env: Env, children: seq<Query>, content: bytes, n: nat)
    requires n <= |children|
    requires RegexBranches(env.regex) && CapSafe(env, And(children)) && TermsSound(env, And(children), content)
    requires Holds(env.engine, And(children), content)
    ensures Admits(ExtractAnd(children[..n], env.regex), FoldedSet(content))
    decreases children, 1, n
  {
    hide FoldedSet, Matches, MergeAnd, Admits, CapHarmless, HasBranches;
    if n == 0 {
      NoConjuncts(env, FoldedSet(content));
      assert children[..0] == [];
    } else {
      var init, last := children[..n - 1], children[n - 1];
      assert children[..n][..n - 1] == init && children[..n][n - 1] == last;
      ExtractAndAdmits(env, children, content, n - 1);
      ExtractAdmits(env, last, content);
      ExtractAndHasBranches(init, env.regex);
      ExtractHasBranches(last, env.regex);
      MergeAndDenotes(ExtractAnd(init, env.regex), Extract(last, env.regex), FoldedSet(content));
    }
  }

  lemma NoConjuncts(env: Env, file: Branch)
    ensures Admits(ExtractAnd([], env.regex), file)
  {
  }

  // ---- pre-filters ----

  /** Languages and path prefixes collected from the whole query, wherever they stand. */
  datatype Filters = Filters(languages: set<Language>, prefixes: set<bytes>)

  function CollectFilters(query: Query): Filters {
    match query
    case LanguageFilter(l) => Filters({l}, {})
    case PathFilter(p) => Filters({}, {p})
    case And(children) => CollectAll(children)
    case Or(left, right) => Union(CollectFilters(left), CollectFilters(right))
    case Not(inner) => CollectFilters(inner)
    case _ => Filters({}, {})
  }

  function CollectAll(children: seq<Query>): Filters {
    if children == [] then Filters({}, {}) else Union(CollectFilters(children[0]), CollectAll(children[1..]))
  }

  function Union(a: Filters, b: Filters): Filters {
    Filters(a.languages + b.languages, a.prefixes + b.prefixes)
  }

  predicate Passes(file: FileRecord, filters: Filters) {
    && (filters.languages != {} ==> file.language in filters.languages)
    && (filters.prefixes != {} ==> exists p :: p in filters.prefixes && p <= file.path)
  }

  // ---- one segment ----

  function MatchContent(env: Env, query: Query, context: u32, content: bytes): Option<seq<LineMatch>> {
    match Eval(env.engine, query, content)
    case None => None
    case Some(lines) =>
      EvalLinesExist(env.engine, query, content);
      Some(Attach(content, lines, context))
  }

  /** attach_context as a function; AttachContext computes it in place. */
  function Attach(content: bytes, lines: seq<LineMatch>, context: u32): (r: seq<LineMatch>)
    requires LinesExist(content, lines)
    ensures |r| == |lines|
  {
    if context == 0 || lines == [] || content == [] then lines
    else
      SortedExist(content, lines);
      var sorted := SortBy(lines, LineKey);
      seq(|lines|, i requires 0 <= i < |lines| => WithContext(content, sorted, context, i))
  }

  lemma EvalLinesExist(engine: Engine, query: Query, content: bytes)
    ensures var r := Eval(engine, query, content); r.Some? ==> LinesExist(content, r.value)
  {
    hide Eval, Holds, Newlines;
    EvalHomomorphism(engine, query, content);
    var r := Eval(engine, query, content);
    if r.Some? {
      forall i | 0 <= i < |r.value| ensures 1 <= r.value[i].lineNumber <= |Newlines(content)| + 1 {
        assert Numbers(r.value)[i] == r.value[i].lineNumber;
        ReportsInside(engine, query, content, r.value[i].lineNumber);
      }
    }
  }

  lemma {:induction false} ReportsInside(engine: Engine, query: Query, content: bytes, line: nat)
    requires Reports(engine, query, content, line)
    ensures 1 <= line <= |Newlines(content)| + 1
  {
    hide Newlines, LineAt, Ranges, Matches, Holds;
    match query
    case Literal(text, cs) => StartsOnInside(content, Ranges(engine, LeafPattern(text, cs), content), line);
    case Phrase(text, cs) => StartsOnInside(content, Ranges(engine, LeafPattern(text, cs), content), line);
    case Regex(pattern, cs) => StartsOnInside(content, Ranges(engine, RegexPattern(pattern, cs), content), line);
    case Or(left, right) =>
      if Reports(engine, left, content, line) { ReportsInside(engine, left, content, line); }
      else { ReportsInside(engine, right, content, line); }
    case And(children) =>
      var i :| 0 <= i < |children| && Reports(engine, children[i], content, line);
      ReportsInside(engine, children[i], content, line);
    case _ =>
  }

  lemma StartsOnInside(content: bytes, rs: seq<Range>, line: nat)
    requires StartsOn(content, rs, line)
    ensures 1 <= line <= |Newlines(content)| + 1
  {
    var i :| 0 <= i < |rs| && LineAt(Newlines(content), rs[i].start) == line;
  }

  function CountRanges(lines: seq<LineMatch>): nat {
    if lines == [] then 0 else |lines[0].ranges| + CountRanges(lines[1..])
  }

  /** The closure run on every candidate, without the result budget. */
  function VerifyCandidate(env: Env, segment: Segment, query: Query, context: u32, id: u32): Option<FileMatch> {
    if id in segment.dead then None
    else if id >= |segment.files| then None
    else
      var file := segment.files[id];
      if !Passes(file, CollectFilters(query)) then None
      else
        match MatchContent(env, query, context, file.content)
        case None => None
        case Some(lines) =>
          var hits := CountRanges(lines);
          Some(FileMatch(id, file.path, file.language, lines, env.score(file, if hits == 0 then 1 else hits)))
  }

  predicate Accepts(env: Env, segment: Segment, query: Query, id: u32) {
    && id !in segment.dead && id < |segment.files|
    && Passes(segment.files[id], CollectFilters(query))
    && Eval(env.engine, query, segment.files[id].content).Some?
  }

  function FilterMap(env: Env, segment: Segment, query: Query, context: u32, ids: seq<u32>): seq<FileMatch> {
    if ids == [] then []
    else
      var rest := FilterMap(env, segment, query, context, ids[1..]);
      match VerifyCandidate(env, segment, query, context, ids[0])
      case None => rest
      case Some(m) => [m] + rest
  }

  function SizeKey(segment: Segment): u32 -> int {
    (id: u32) => if id < |segment.files| then segment.files[id].size else U32_MAX
  }

  function SortCandidatesBySize(segment: Segment, ids: seq<u32>): seq<u32> {
    if |ids| <= 1 then ids else SortBy(ids, SizeKey(segment))
  }

  ghost function AdmittedKey(segment: Segment, tq: TrigramQuery): u32 -> bool {
    (id: u32) => Admits(tq, FileTrigrams(segment, id))
  }

  ghost function CandidateIds(segment: Segment, tq: TrigramQuery): seq<u32>
    requires |segment.files| <= U32_MAX
  {
    Filter(AllFileIds(segment), AdmittedKey(segment, tq))
  }

  lemma CandidatesUnique(segment: Segment, ids: seq<u32>, tq: TrigramQuery)
    requires |segment.files| <= U32_MAX && CandidatesFor(segment, ids, tq)
    ensures ids == CandidateIds(segment, tq)
  {
    hide Admits, FileTrigrams;
    var all := AllFileIds(segment);
    FilterIncreasing(all, AdmittedKey(segment, tq));
    forall x: u32 ensures x in all <==> x < |segment.files| {
      if x < |segment.files| { assert all[x] == x; }
    }
    IncreasingUnique(ids, CandidateIds(segment, tq));
  }

  lemma {:induction false} FilterIncreasing(s: seq<u32>, keep: u32 -> bool)
    requires Increasing(s)
    ensures Increasing(Filter(s, keep))
  {
    if s != [] {
      FilterIncreasing(s[1..], keep);
      var rest := Filter(s[1..], keep);
      forall j | 0 <= j < |rest| ensures s[0] < rest[j] {
        assert rest[j] in rest;
        var k :| 0 <= k < |s[1..]| && s[1..][k] == rest[j];
        assert s[k + 1] == rest[j];
      }
    }
  }

  // ---- what a segment's result holds ----

  /** A match carries the file's own path and language, its matching lines, and a score for its ranges, at least one. */
  ghost predicate IsFound(env: Env, segment: Segment, query: Query, context: u32, m: FileMatch) {
    && m.fileId !in segment.dead && m.fileId < |segment.files|
    && var file := segment.files[m.fileId];
    && m.path == file.path && m.language == file.language
    && Passes(file, CollectFilters(query)) && Eval(env.engine, query, file.content).Some?
    && MatchContent(env, query, context, file.content) == Some(m.lines)
    && m.score == env.score(file, if forall i :: 0 <= i < |m.lines| ==> m.lines[i].ranges == [] then 1
                                  else CountRanges(m.lines))
  }

  /** Smallest files first, files of one size by id. */
  ghost predicate SizesIncrease(segment: Segment, ids: seq<u32>) {
    forall i, j :: 0 <= i < j < |ids| ==> SmallerFirst(segment, ids[i], ids[j])
  }

  predicate SmallerFirst(segment: Segment, x: u32, y: u32) {
    x < |segment.files| && y < |segment.files| ==>
      segment.files[x].size < segment.files[y].size || (segment.files[x].size == segment.files[y].size && x < y)
  }

  function FoundIds(ms: seq<FileMatch>): (r: seq<u32>)
    ensures |r| == |ms| && forall i :: 0 <= i < |r| ==> r[i] == ms[i].fileId
  {
    seq(|ms|, i requires 0 <= i < |ms| => ms[i].fileId)
  }

  /** Of the candidates exactly the live files that pass the filters and on which the query holds, in order of size. */
  ghost predicate FindsExactly(env: Env, segment: Segment, query: Query, context: u32, ids: seq<u32>, r: seq<FileMatch>) {
    && (forall m :: m in r ==> IsFound(env, segment, query, context, m))
    && (forall id :: id in FoundIds(r) <==> id in ids && Accepts(env, segment, query, id))
    && SizesIncrease(segment, FoundIds(r))
  }

  lemma {:induction false} CountIsZero(lines: seq<LineMatch>)
    ensures CountRanges(lines) == 0 <==> forall i :: 0 <= i < |lines| ==> lines[i].ranges == []
  {
    if lines != [] { CountIsZero(lines[1..]); }
  }

  /** CountRanges adds up the ranges of all lines. */
  lemma {:induction false} CountAdds(a: seq<LineMatch>, m: LineMatch)
    ensures CountRanges(a + [m]) == CountRanges(a) + |m.ranges| && CountRanges([]) == 0
  {
    if a == [] {
      assert [] + [m] == [m];
    } else {
      assert (a + [m])[1..] == a[1..] + [m];
      CountAdds(a[1..], m);
    }
  }

  lemma CandidateFound(env: Env, segment: Segment, query: Query, context: u32, id: u32)
    ensures var m := VerifyCandidate(env, segment, query, context, id);
      && (m.Some? <==> Accepts(env, segment, query, id))
      && (m.Some? ==> m.value.fileId == id && IsFound(env, segment, query, context, m.value))
  {
    hide Eval, Passes, CollectFilters, Attach;
    var m := VerifyCandidate(env, segment, query, context, id);
    if m.Some? { CountIsZero(m.value.lines); }
  }

  lemma FoundCons(m: FileMatch, ms: seq<FileMatch>)
    ensures FoundIds([m] + ms) == [m.fileId] + FoundIds(ms)
  {
  }

  lemma FindsSkip(env: Env, segment: Segment, query: Query, context: u32, ids: seq<u32>, rest: seq<FileMatch>)
    requires ids != [] && !Accepts(env, segment, query, ids[0])
    requires FindsExactly(env, segment, query, context, ids[1..], rest)
    ensures FindsExactly(env, segment, query, context, ids, rest)
  {
    hide IsFound, Accepts, SizesIncrease;
    assert forall x :: x in ids <==> x == ids[0] || x in ids[1..];
  }

  lemma FindsCons(
      env: Env, segment: Segment, query: Query, context: u32, ids: seq<u32>, m: FileMatch, rest: seq<FileMatch>)
    requires ids != [] && m.fileId == ids[0] && Accepts(env, segment, query, ids[0])
    requires IsFound(env, segment, query, context, m) && SizesIncrease(segment, ids)
    requires FindsExactly(env, segment, query, context, ids[1..], rest)
    ensures FindsExactly(env, segment, query, context, ids, [m] + rest)
  {
    hide IsFound, Accepts, SmallerFirst;
    FoundCons(m, rest);
    assert forall x :: x in ids <==> x == ids[0] || x in ids[1..];
    forall j | 0 <= j < |rest| ensures SmallerFirst(segment, ids[0], FoundIds(rest)[j]) {
      assert FoundIds(rest)[j] in FoundIds(rest);
      var k :| 0 <= k < |ids[1..]| && ids[1..][k] == FoundIds(rest)[j];
      assert ids[k + 1] == FoundIds(rest)[j];
    }
  }

  lemma {:induction false} FilterMapFinds(env: Env, segment: Segment, query: Query, context: u32, ids: seq<u32>)
    requires SizesIncrease(segment, ids)
    ensures FindsExactly(env, segment, query, context, ids, FilterMap(env, segment, query, context, ids))
  {
    hide VerifyCandidate, IsFound, Accepts, SmallerFirst, FindsExactly;
    if ids == [] {
      NothingFound(env, segment, query, context);
    } else {
      assert SizesIncrease(segment, ids[1..]);
      hide SizesIncrease;
      FilterMapFinds(env, segment, query, context, ids[1..]);
      var rest := FilterMap(env, segment, query, context, ids[1..]);
      CandidateFound(env, segment, query, context, ids[0]);
      var m := VerifyCandidate(env, segment, query, context, ids[0]);
      if m.Some? {
        FindsCons(env, segment, query, context, ids, m.value, rest);
      } else {
        FindsSkip(env, segment, query, context, ids, rest);
      }
    }
  }

  lemma NothingFound(env: Env, segment: Segment, query: Query, context: u32)
    ensures FindsExactly(env, segment, query, context, [], [])
  {
  }

  lemma FirstBySize(segment: Segment, x: u32, s: seq<u32>)
    requires s != [] && SizesIncrease(segment, s) && SortedBy(s, SizeKey(segment))
    requires (forall y :: y in s ==> x < y < |segment.files|) && SizeKey(segment)(x) <= SizeKey(segment)(s[0])
    ensures SizesIncrease(segment, [x] + s)
  {
    forall j | 0 <= j < |s| ensures SmallerFirst(segment, x, s[j]) {
      assert s[j] in s && (j > 0 ==> SizeKey(segment)(s[0]) <= SizeKey(segment)(s[j]));
    }
  }

  lemma BehindFirst(segment: Segment, x: u32, s: seq<u32>, rest: seq<u32>)
    requires s != [] && SizesIncrease(segment, s) && SizesIncrease(segment, rest) && SmallerFirst(segment, s[0], x)
    requires forall y :: y in rest <==> y == x || y in s[1..]
    ensures SizesIncrease(segment, [s[0]] + rest)
  {
    hide SmallerFirst;
    forall j | 0 <= j < |rest| ensures SmallerFirst(segment, s[0], rest[j]) {
      assert rest[j] in rest;
      if rest[j] != x {
        var k :| 0 <= k < |s[1..]| && s[1..][k] == rest[j];
        assert s[k + 1] == rest[j] && SmallerFirst(segment, s[0], s[k + 1]);
      }
    }
  }

  lemma {:induction false} InsertBySize(segment: Segment, x: u32, s: seq<u32>)
    requires SizesIncrease(segment, s) && SortedBy(s, SizeKey(segment)) && forall y :: y in s ==> x < y < |segment.files|
    ensures SizesIncrease(segment, Insert(x, s, SizeKey(segment)))
  {
    if s != [] {
      var key := SizeKey(segment);
      if key(x) <= key(s[0]) {
        FirstBySize(segment, x, s);
      } else {
        assert forall y :: y in s[1..] ==> y in s;
        InsertBySize(segment, x, s[1..]);
        assert s[0] in s;
        BehindFirst(segment, x, s, Insert(x, s[1..], key));
      }
    }
  }

  lemma {:induction false} SortsBySize(segment: Segment, ids: seq<u32>)
    requires Increasing(ids) && forall x :: x in ids ==> x < |segment.files|
    ensures SizesIncrease(segment, SortBy(ids, SizeKey(segment)))
  {
    if ids != [] {
      var rest := SortBy(ids[1..], SizeKey(segment));
      assert forall x :: x in ids[1..] ==> x in ids;
      SortsBySize(segment, ids[1..]);
      SortBySorted(ids[1..], SizeKey(segment));
      forall y | y in rest ensures ids[0] < y < |segment.files| {
        var k :| 0 <= k < |ids[1..]| && ids[1..][k] == y;
        assert ids[k + 1] == y && ids[k + 1] in ids;
      }
      InsertBySize(segment, ids[0], rest);
    }
  }

  lemma SegmentFinds(env: Env, segment: Segment, query: Query, context: u32, ids: seq<u32>)
    requires Increasing(ids) && forall x :: x in ids ==> x < |segment.files|
    ensures FindsExactly(env, segment, query, context, ids,
              FilterMap(env, segment, query, context, SortCandidatesBySize(segment, ids)))
  {
    hide FilterMap, IsFound, Accepts, SmallerFirst;
    var sorted := SortCandidatesBySize(segment, ids);
    SortsBySize(segment, ids);
    FilterMapFinds(env, segment, query, context, sorted);
  }

  /** search_single_segment_with_query without a budget: the accepted candidates, smallest files first. */
  method SearchSegment(env: Env, segment: Segment, query: Query, tq: TrigramQuery, context: u32)
    returns (r: Result<seq<FileMatch>>)
    requires |segment.files| <= U32_MAX && WellFormed(segment.reader)
    ensures Indexed(segment) ==>
      r == Ok(FilterMap(env, segment, query, context, SortCandidatesBySize(segment, CandidateIds(segment, tq))))
    ensures Indexed(segment) ==>
      r.Ok? && exists ids :: CandidatesFor(segment, ids, tq) && FindsExactly(env, segment, query, context, ids, r.value)
  {
    hide VerifyCandidate, Indexed, CandidatesFor, CandidateIds, SortCandidatesBySize, FilterMap, WellFormed, FindsExactly;
    var candidates := LookupTrigramCandidates(segment, tq);
    if candidates.Err? { return Err(candidates.error); }
    var sorted := SortCandidatesBySize(segment, candidates.value);
    var found: seq<FileMatch> := [];
    assert sorted[0..] == sorted;
    for i := 0 to |sorted|
      invariant found + FilterMap(env, segment, query, context, sorted[i..])
             == FilterMap(env, segment, query, context, sorted)
    {
      FilterMapStep(env, segment, query, context, sorted, i, found);
      var m := VerifyCandidate(env, segment, query, context, sorted[i]);
      if m.Some? { found := found + [m.value]; }
    }
    FilterMapStop(env, segment, query, context, sorted[|sorted|..]);
    assert found + [] == found;
    if Indexed(segment) {
      CandidatesUnique(segment, candidates.value, tq);
      CandidatesListed(segment, candidates.value, tq);
      SegmentFinds(env, segment, query, context, candidates.value);
    }
    r := Ok(found);
  }

  lemma CandidatesListed(segment: Segment, ids: seq<u32>, tq: TrigramQuery)
    requires CandidatesFor(segment, ids, tq)
    ensures Increasing(ids) && forall x :: x in ids ==> x < |segment.files|
  {
  }

  lemma FilterMapStep(
      env: Env, segment: Segment, query: Query, context: u32, ids: seq<u32>, i: nat, found: seq<FileMatch>)
    requires i < |ids|
    ensures var m := VerifyCandidate(env, segment, query, context, ids[i]);
            found + FilterMap(env, segment, query, context, ids[i..])
            == (if m.Some? then found + [m.value] else found) + FilterMap(env, segment, query, context, ids[i + 1..])
  {
    hide VerifyCandidate;
    assert ids[i..][1..] == ids[i + 1..];
  }

  lemma FilterMapStop(env: Env, segment: Segment, query: Query, context: u32, ids: seq<u32>)
    requires ids == []
    ensures FilterMap(env, segment, query, context, ids) == []
  {
  }

  /** Brute force: every file id, no index, the same order and the same closure. */
  function BruteForce(env: Env, segment: Segment, query: Query, context: u32): seq<FileMatch>
    requires |segment.files| <= U32_MAX
  {
    FilterMap(env, segment, query, context, SortCandidatesBySize(segment, AllFileIds(segment)))
  }

  function AcceptsKey(env: Env, segment: Segment, query: Query): u32 -> bool {
    (id: u32) => Accepts(env, segment, query, id)
  }

  lemma {:induction false} FilterMapAccepted(env: Env, segment: Segment, query: Query, context: u32, ids: seq<u32>)
    ensures FilterMap(env, segment, query, context, ids)
         == FilterMap(env, segment, query, context, Filter(ids, AcceptsKey(env, segment, query)))
  {
    hide Eval, Passes, CollectFilters, Attach;
    if ids != [] {
      FilterMapAccepted(env, segment, query, context, ids[1..]);
      var rest := Filter(ids[1..], AcceptsKey(env, segment, query));
      assert ([ids[0]] + rest)[1..] == rest;
    }
  }

  /**
   * The index changes nothing but the cost: searching with the trigrams extracted from the query gives the very list
   * that brute force gives, provided the terms are sound on the live files and the cap cut off nothing that matters.
   */
  lemma IndexedEqualsBruteForce(env: Env, segment: Segment, query: Query, context: u32)
    requires |segment.files| <= U32_MAX
    requires RegexBranches(env.regex) && CapSafe(env, query)
    requires forall id :: 0 <= id < |segment.files| && id !in segment.dead ==>
      TermsSound(env, query, segment.files[id].content)
    ensures FilterMap(env, segment, query, context,
              SortCandidatesBySize(segment, CandidateIds(segment, Extract(query, env.regex))))
         == BruteForce(env, segment, query, context)
  {
    hide Eval, Passes, CollectFilters, FilterMap, TermsSound, CapSafe, FoldedSet;
    var tq := Extract(query, env.regex);
    var all, accepts := AllFileIds(segment), AcceptsKey(env, segment, query);
    forall x | x in all && accepts(x) ensures AdmittedKey(segment, tq)(x) {
      var content := segment.files[x].content;
      EvalHomomorphism(env.engine, query, content);
      ExtractAdmits(env, query, content);
    }
    FilterImplied(all, AdmittedKey(segment, tq), accepts);
    var some := CandidateIds(segment, tq);
    FilterMapAccepted(env, segment, query, context, SortCandidatesBySize(segment, some));
    FilterMapAccepted(env, segment, query, context, SortCandidatesBySize(segment, all));
    SizeSortFiltered(segment, some, accepts);
    SizeSortFiltered(segment, all, accepts);
  }

  lemma SizeSortFiltered(segment: Segment, ids: seq<u32>, keep: u32 -> bool)
    ensures Filter(SortCandidatesBySize(segment, ids), keep) == SortBy(Filter(ids, keep), SizeKey(segment))
  {
    SortByFiltered(ids, SizeKey(segment), keep);
    if |ids| == 1 { assert SortBy(ids, SizeKey(segment)) == ids; }
  }

  // ---- what a search displays ----

  ghost predicate Bare(lines: seq<LineMatch>) {
    forall i :: 0 <= i < |lines| ==> lines[i].before == [] && lines[i].after == []
  }

  lemma {:induction false} GroupsBare(content: bytes, rs: seq<Range>)
    requires RangesWithin(rs, content)
    ensures Bare(GroupByLine(content, rs))
    decreases |rs|
  {
    hide Newlines, LineText, LineAt, Relative;
    if rs != [] { GroupsBare(content, rs[..|rs| - 1]); }
  }

  lemma {:induction false} DedupBare(lines: seq<LineMatch>)
    requires Bare(lines)
    ensures Bare(DedupLines(lines))
    decreases |lines|
  {
    if lines != [] { DedupBare(lines[..|lines| - 1]); }
  }

  lemma SortBare(lines: seq<LineMatch>)
    requires Bare(lines)
    ensures Bare(SortBy(lines, LineKey)) && Bare(SortAndDedup(lines))
  {
    hide DedupLines;
    var sorted := SortBy(lines, LineKey);
    forall i | 0 <= i < |sorted| ensures sorted[i].before == [] && sorted[i].after == [] {
      assert sorted[i] in lines;
    }
    DedupBare(sorted);
  }

  lemma LeafBare(engine: Engine, p: Pattern, content: bytes)
    ensures var r := VerifyLeaf(engine, p, content); r.Some? ==> Bare(r.value)
  {
    hide Ranges, GroupByLine, RangesWithin;
    RangesInside(engine, p, content);
    if content != [] { GroupsBare(content, Ranges(engine, p, content)); }
  }

  /** eval attaches no context of its own. */
  lemma {:induction false} EvalBare(engine: Engine, query: Query, content: bytes)
    ensures var r := Eval(engine, query, content); r.Some? ==> Bare(r.value)
    decreases query, 0
  {
    hide VerifyLeaf, SortAndDedup;
    match query
    case Literal(text, cs) => LeafBare(engine, LeafPattern(text, cs), content);
    case Phrase(text, cs) => LeafBare(engine, LeafPattern(text, cs), content);
    case Regex(pattern, cs) => LeafBare(engine, RegexPattern(pattern, cs), content);
    case Or(left, right) =>
      EvalBare(engine, left, content);
      EvalBare(engine, right, content);
      OrUnfolds(engine, left, right, content);
      var l, r := Eval(engine, left, content), Eval(engine, right, content);
      if l.Some? && r.Some? { SortBare(l.value + r.value); }
    case And(children) =>
      GatherBare(engine, children, content);
      var g := Gather(engine, children, content);
      if g.Some? { SortBare(g.value); }
    case _ =>
  }

  lemma {:induction false} GatherBare(engine: Engine, children: seq<Query>, content: bytes)
    ensures var r := Gather(engine, children, content); r.Some? ==> Bare(r.value)
    decreases children, 1
  {
    hide Eval;
    if children != [] {
      EvalBare(engine, children[0], content);
      GatherBare(engine, children[1..], content);
    }
  }

  /**
   * The lines shown for a file, matches and context together, are strictly increasing line numbers of the file: no
   * line is shown twice.
   */
  lemma MatchDisplayIncreases(env: Env, query: Query, context: u32, content: bytes)
    requires context > 0 && content != [] && MatchContent(env, query, context, content).Some?
    ensures var shown := Display(MatchContent(env, query, context, content).value);
      Increasing(shown) && forall x :: x in shown ==> 1 <= x <= |Newlines(content)| + 1
  {
    hide Eval, Newlines, Holds, WithContext, Increasing, Display;
    var lines := Eval(env.engine, query, content).value;
    EvalHomomorphism(env.engine, query, content);
    EvalBare(env.engine, query, content);
    EvalLinesExist(env.engine, query, content);
    InOrder(lines);
    DisplayIncreases(content, lines, context, MatchContent(env, query, context, content).value);
  }

  /**
   * Exactly the matching lines are shown for a file, and of the lines near them those outside the gaps between two
   * matches of one block.
   */
  lemma MatchDisplayExactly(env: Env, query: Query, context: u32, content: bytes, x: nat)
    requires context > 0 && content != [] && Eval(env.engine, query, content).Some?
    requires NoWrap(Eval(env.engine, query, content).value, context)
    ensures var lines := Eval(env.engine, query, content).value;
      var shown := Display(MatchContent(env, query, context, content).value);
      x in shown <==> Reports(env.engine, query, content, x) || NearOutsideGaps(content, lines, context, x)
  {
    hide Eval, Newlines, Holds, WithContext, Increasing, Display, Reports, Nearby, InGap;
    var lines := Eval(env.engine, query, content).value;
    EvalHomomorphism(env.engine, query, content);
    EvalBare(env.engine, query, content);
    EvalLinesExist(env.engine, query, content);
    InOrder(lines);
    assert IsMatchLine(lines, x) <==> x in Numbers(lines);
    DisplayExactly(content, lines, context, MatchContent(env, query, context, content).value, x);
  }

  /** The lines eval returns are in order already, so the sort at the start of attach_context changes nothing. */
  lemma InOrder(lines: seq<LineMatch>)
    requires Increasing(Numbers(lines))
    ensures SortBy(lines, LineKey) == lines
  {
    forall i, j | 0 <= i < j < |lines| ensures LineKey(lines[i]) <= LineKey(lines[j]) {
      assert Numbers(lines)[i] < Numbers(lines)[j];
    }
    SortedStays(lines, LineKey);
  }
}
