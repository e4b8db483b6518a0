/** Path and language filters: extract_pre_filters and passes_pre_filters (ferret-core/src/multi_search.rs). */
module FilterMeaning {
  // The search collects filters from the whole query, tests them on the metadata and lets them pass in eval. The
  // lemmas say exactly when that is the boolean meaning of the query, and what happens to filters in other places.

  import opened Base
  import opened Query
  import opened QueryMatch
  import opened SegmentSearch
  import opened Verify

  /** The boolean meaning of a query on a file, filters included. */
  ghost predicate Meaning(engine: Engine, query: Query, file: FileRecord) {
    match query
    case Literal(_, _) => Holds(engine, query, file.content)
    case Phrase(_, _) => Holds(engine, query, file.content)
    case Regex(_, _) => Holds(engine, query, file.content)
    case PathFilter(p) => p <= file.path
    case LanguageFilter(l) => file.language == l
    case Not(inner) => !Meaning(engine, inner, file)
    case Or(left, right) => Meaning(engine, left, file) || Meaning(engine, right, file)
    case And(children) => forall i :: 0 <= i < |children| ==> Meaning(engine, children[i], file)
  }

  /** What the search tests on a live file. */
  ghost predicate Selected(engine: Engine, query: Query, file: FileRecord) {
    Passes(file, CollectFilters(query)) && Holds(engine, query, file.content)
  }

  /** Accepting a live file is exactly the filter test together with the content test. */
  lemma AcceptsIsSelected(env: Env, segment: Segment, query: Query, id: u32)
    requires id !in segment.dead && id < |segment.files|
    ensures Accepts(env, segment, query, id) <==> Selected(env.engine, query, segment.files[id])
  {
    hide Eval, Holds, Passes, CollectFilters;
    EvalHomomorphism(env.engine, query, segment.files[id].content);
  }

  predicate FilterFree(query: Query) {
    match query
    case PathFilter(_) => false
    case LanguageFilter(_) => false
    case Not(inner) => FilterFree(inner)
    case Or(left, right) => FilterFree(left) && FilterFree(right)
    case And(children) => forall i :: 0 <= i < |children| ==> FilterFree(children[i])
    case _ => true
  }

  lemma {:induction false} FilterFreeMeaning(engine: Engine, query: Query, file: FileRecord)
    requires FilterFree(query)
    ensures Meaning(engine, query, file) <==> Holds(engine, query, file.content)
    ensures CollectFilters(query) == Filters({}, {})
  {
    hide Matches;
    match query
    case Not(inner) => FilterFreeMeaning(engine, inner, file);
    case Or(left, right) =>
      FilterFreeMeaning(engine, left, file);
      FilterFreeMeaning(engine, right, file);
    case And(children) =>
      forall i | 0 <= i < |children|
        ensures Meaning(engine, children[i], file) <==> Holds(engine, children[i], file.content)
        ensures CollectFilters(children[i]) == Filters({}, {})
      {
        FilterFreeMeaning(engine, children[i], file);
      }
      CollectNone(children);
    case _ =>
  }

  lemma {:induction false} CollectNone(children: seq<Query>)
    requires forall i :: 0 <= i < |children| ==> CollectFilters(children[i]) == Filters({}, {})
    ensures CollectAll(children) == Filters({}, {})
  {
    if children != [] {
      CollectNone(children[1..]);
    }
  }

  // ---- groups of alternative filters ----

  predicate IsFilter(query: Query) { query.PathFilter? || query.LanguageFilter? }

  predicate PathAlternatives(query: Query) {
    match query
    case PathFilter(_) => true
    case Or(left, right) => PathAlternatives(left) && PathAlternatives(right)
    case Not(Not(inner)) => PathAlternatives(inner)
    case _ => false
  }

  predicate LanguageAlternatives(query: Query) {
    match query
    case LanguageFilter(_) => true
    case Or(left, right) => LanguageAlternatives(left) && LanguageAlternatives(right)
    case Not(Not(inner)) => LanguageAlternatives(inner)
    case _ => false
  }

  /** A filter, or alternatives of one kind. */
  predicate Alternatives(query: Query) { PathAlternatives(query) || LanguageAlternatives(query) }

  ghost predicate PrefixIn(prefixes: set<bytes>, path: bytes) {
    exists p :: p in prefixes && p <= path
  }

  lemma PrefixUnion(a: set<bytes>, b: set<bytes>, path: bytes)
    ensures PrefixIn(a + b, path) <==> PrefixIn(a, path) || PrefixIn(b, path)
  {
    if PrefixIn(a + b, path) { var p :| p in a + b && p <= path; }
    if PrefixIn(a, path) { var p :| p in a && p <= path; assert p in a + b; }
    if PrefixIn(b, path) { var p :| p in b && p <= path; assert p in a + b; }
  }

  /** Alternatives always pass eval, and mean that one of the collected filters holds. */
  lemma {:induction false} PathGroup(engine: Engine, query: Query, file: FileRecord)
    requires PathAlternatives(query)
    ensures CollectFilters(query).languages == {} && CollectFilters(query).prefixes != {}
    ensures Meaning(engine, query, file) <==> PrefixIn(CollectFilters(query).prefixes, file.path)
    ensures Holds(engine, query, file.content)
  {
    match query
    case PathFilter(p) => assert p in CollectFilters(query).prefixes;
    case Or(left, right) =>
      PathGroup(engine, left, file);
      PathGroup(engine, right, file);
      PrefixUnion(CollectFilters(left).prefixes, CollectFilters(right).prefixes, file.path);
    case Not(Not(inner)) => PathGroup(engine, inner, file);
  }

  lemma {:induction false} LanguageGroup(engine: Engine, query: Query, file: FileRecord)
    requires LanguageAlternatives(query)
    ensures CollectFilters(query).prefixes == {} && CollectFilters(query).languages != {}
    ensures Meaning(engine, query, file) <==> file.language in CollectFilters(query).languages
    ensures Holds(engine, query, file.content)
  {
    match query
    case LanguageFilter(l) => assert l in CollectFilters(query).languages;
    case Or(left, right) =>
      LanguageGroup(engine, left, file);
      LanguageGroup(engine, right, file);
    case Not(Not(inner)) => LanguageGroup(engine, inner, file);
  }

  // ---- the conjuncts of a query ----

  /** Nested conjunctions and double negations opened up. */
  function Conjuncts(query: Query): seq<Query>
    decreases query, 0
  {
    match query
    case And(children) => ConjunctsOf(children)
    case Not(Not(inner)) => Conjuncts(inner)
    case _ => [query]
  }

  function ConjunctsOf(children: seq<Query>): seq<Query>
    decreases children, 1
  {
    if children == [] then [] else Conjuncts(children[0]) + ConjunctsOf(children[1..])
  }

  ghost predicate AllHold(engine: Engine, cs: seq<Query>, content: bytes) {
    forall i :: 0 <= i < |cs| ==> Holds(engine, cs[i], content)
  }

  ghost predicate AllMean(engine: Engine, cs: seq<Query>, file: FileRecord) {
    forall i :: 0 <= i < |cs| ==> Meaning(engine, cs[i], file)
  }

  lemma {:induction false} CollectConcat(a: seq<Query>, b: seq<Query>)
    ensures CollectAll(a + b) == Union(CollectAll(a), CollectAll(b))
  {
    if a == [] {
      assert a + b == b;
    } else {
      assert (a + b)[1..] == a[1..] + b;
      CollectConcat(a[1..], b);
    }
  }

  lemma JoinAll(engine: Engine, a: seq<Query>, b: seq<Query>, file: FileRecord)
    ensures AllHold(engine, a + b, file.content) <==> AllHold(engine, a, file.content) && AllHold(engine, b, file.content)
    ensures AllMean(engine, a + b, file) <==> AllMean(engine, a, file) && AllMean(engine, b, file)
  {
    hide Holds, Meaning;
    var all := a + b;
    assert forall i :: 0 <= i < |a| ==> all[i] == a[i];
    assert forall i :: 0 <= i < |b| ==> all[|a| + i] == b[i];
  }

  lemma OneAll(engine: Engine, q: Query, file: FileRecord)
    ensures AllHold(engine, [q], file.content) <==> Holds(engine, q, file.content)
    ensures AllMean(engine, [q], file) <==> Meaning(engine, q, file)
    ensures CollectAll([q]) == CollectFilters(q)
  {
    hide Holds, Meaning, CollectFilters;
    assert [q][0] == q && [q][1..] == [];
    assert CollectAll([]) == Filters({}, {});
  }

  lemma AndIs(engine: Engine, children: seq<Query>, file: FileRecord)
    ensures AllHold(engine, children, file.content) <==> Holds(engine, And(children), file.content)
    ensures AllMean(engine, children, file) <==> Meaning(engine, And(children), file)
  {
  }

  /** A query is the conjunction of its conjuncts, for the filters collected, for eval and for the meaning. */
  lemma {:induction false} ConjunctsMean(engine: Engine, query: Query, file: FileRecord)
    ensures CollectAll(Conjuncts(query)) == CollectFilters(query)
    ensures AllHold(engine, Conjuncts(query), file.content) <==> Holds(engine, query, file.content)
    ensures AllMean(engine, Conjuncts(query), file) <==> Meaning(engine, query, file)
    decreases query, 0
  {
    hide AllHold, AllMean, Matches;
    match query
    case And(children) =>
      ConjunctsOfMean(engine, children, file);
      AndIs(engine, children, file);
    case Not(Not(inner)) => ConjunctsMean(engine, inner, file);
    case _ => OneAll(engine, query, file);
  }

  lemma {:induction false} ConjunctsOfMean(engine: Engine, children: seq<Query>, file: FileRecord)
    ensures CollectAll(ConjunctsOf(children)) == CollectAll(children)
    ensures AllHold(engine, ConjunctsOf(children), file.content) <==> AllHold(engine, children, file.content)
    ensures AllMean(engine, ConjunctsOf(children), file) <==> AllMean(engine, children, file)
    decreases children, 1
  {
    hide Holds, Meaning, Conjuncts;
    if children != [] {
      var head, tail := children[0], children[1..];
      ConjunctsMean(engine, head, file);
      ConjunctsOfMean(engine, tail, file);
      CollectConcat(Conjuncts(head), ConjunctsOf(tail));
      hide AllHold, AllMean;
      JoinAll(engine, Conjuncts(head), ConjunctsOf(tail), file);
      JoinAll(engine, [head], tail, file);
      OneAll(engine, head, file);
      assert children == [head] + tail;
    }
  }

  // ---- when the search agrees with the meaning ----

  /** Every conjunct is free of filters or consists of alternative filters of one kind. */
  predicate Grouped(cs: seq<Query>) {
    forall i :: 0 <= i < |cs| ==> FilterFree(cs[i]) || Alternatives(cs[i])
  }

  predicate FiltersOnTop(query: Query) { Grouped(Conjuncts(query)) }

  /** Every prefix of the first group extends one of the second. */
  ghost predicate Within(a: set<bytes>, b: set<bytes>) {
    forall p :: p in a ==> PrefixIn(b, p)
  }

  /** Groups of one kind have the same languages, or prefixes that extend each other. */
  ghost predicate Compatible(c: Query, d: Query) {
    && (LanguageAlternatives(c) && LanguageAlternatives(d) ==>
          CollectFilters(c).languages == CollectFilters(d).languages)
    && (PathAlternatives(c) && PathAlternatives(d) ==> Within(CollectFilters(c).prefixes, CollectFilters(d).prefixes))
  }

  ghost predicate GroupsAgree(cs: seq<Query>) {
    forall i, j :: 0 <= i < |cs| && 0 <= j < |cs| ==> Compatible(cs[i], cs[j])
  }

  lemma CollectFree(query: Query)
    requires FilterFree(query)
    ensures CollectFilters(query) == Filters({}, {})
  {
    FilterFreeMeaning((_, _, _) => None, query, FileRecord([], [], Language(0), 0));
  }

  ghost predicate FromGroup(cs: seq<Query>, l: Language) {
    exists i :: 0 <= i < |cs| && l in CollectFilters(cs[i]).languages
  }

  ghost predicate FromPathGroup(cs: seq<Query>, p: bytes) {
    exists i :: 0 <= i < |cs| && p in CollectFilters(cs[i]).prefixes
  }

  /** A collected filter comes from one of the conjuncts. */
  lemma {:induction false} CollectedFrom(cs: seq<Query>)
    ensures forall l :: l in CollectAll(cs).languages <==> FromGroup(cs, l)
    ensures forall p :: p in CollectAll(cs).prefixes <==> FromPathGroup(cs, p)
  {
    if cs != [] {
      var head, tail := cs[0], cs[1..];
      CollectedFrom(tail);
      hide CollectFilters;
      forall l ensures FromGroup(cs, l) <==> l in CollectFilters(head).languages || FromGroup(tail, l) {
        if FromGroup(tail, l) {
          var i :| 0 <= i < |tail| && l in CollectFilters(tail[i]).languages;
          assert cs[i + 1] == tail[i];
        }
        if FromGroup(cs, l) {
          var i :| 0 <= i < |cs| && l in CollectFilters(cs[i]).languages;
          if i > 0 { assert cs[i] == tail[i - 1]; }
        }
      }
      forall p ensures FromPathGroup(cs, p) <==> p in CollectFilters(head).prefixes || FromPathGroup(tail, p) {
        if FromPathGroup(tail, p) {
          var i :| 0 <= i < |tail| && p in CollectFilters(tail[i]).prefixes;
          assert cs[i + 1] == tail[i];
        }
        if FromPathGroup(cs, p) {
          var i :| 0 <= i < |cs| && p in CollectFilters(cs[i]).prefixes;
          if i > 0 { assert cs[i] == tail[i - 1]; }
        }
      }
    }
  }

  /** What a conjunct contributes, by its kind. */
  lemma ConjunctIs(engine: Engine, c: Query, file: FileRecord)
    requires FilterFree(c) || Alternatives(c)
    ensures FilterFree(c) ==> CollectFilters(c) == Filters({}, {})
    ensures FilterFree(c) ==> (Meaning(engine, c, file) <==> Holds(engine, c, file.content))
    ensures PathAlternatives(c) ==> CollectFilters(c).languages == {} && CollectFilters(c).prefixes != {}
    ensures PathAlternatives(c) ==> (Meaning(engine, c, file) <==> PrefixIn(CollectFilters(c).prefixes, file.path))
    ensures LanguageAlternatives(c) ==> CollectFilters(c).prefixes == {} && CollectFilters(c).languages != {}
    ensures LanguageAlternatives(c) ==> (Meaning(engine, c, file) <==> file.language in CollectFilters(c).languages)
    ensures Alternatives(c) ==> Holds(engine, c, file.content)
  {
    hide Meaning, Holds, CollectFilters, FilterFree;
    if FilterFree(c) { FilterFreeMeaning(engine, c, file); }
    if PathAlternatives(c) { PathGroup(engine, c, file); }
    if LanguageAlternatives(c) { LanguageGroup(engine, c, file); }
  }

  /** The meaning of a conjunct implies that it passes eval. */
  lemma MeaningHolds(engine: Engine, cs: seq<Query>, file: FileRecord)
    requires Grouped(cs) && AllMean(engine, cs, file)
    ensures AllHold(engine, cs, file.content) && Passes(file, CollectAll(cs))
  {
    hide Meaning, Holds, CollectFilters, FilterFree, Alternatives, CollectAll;
    forall i | 0 <= i < |cs| ensures Holds(engine, cs[i], file.content) { ConjunctIs(engine, cs[i], file); }
    CollectedFrom(cs);
    var filters := CollectAll(cs);
    if filters.languages != {} {
      var l :| l in filters.languages;
      var i :| 0 <= i < |cs| && l in CollectFilters(cs[i]).languages;
      ConjunctIs(engine, cs[i], file);
      LanguageOrigin(cs[i], l);
      assert FromGroup(cs, file.language);
    }
    if filters.prefixes != {} {
      var p :| p in filters.prefixes;
      var i :| 0 <= i < |cs| && p in CollectFilters(cs[i]).prefixes;
      ConjunctIs(engine, cs[i], file);
      PathOrigin(cs[i], p);
      var q :| q in CollectFilters(cs[i]).prefixes && q <= file.path;
      assert FromPathGroup(cs, q);
    }
  }

  lemma LanguageOrigin(c: Query, l: Language)
    requires (FilterFree(c) || Alternatives(c)) && l in CollectFilters(c).languages
    ensures LanguageAlternatives(c)
  {
    hide CollectFilters, FilterFree;
    ConjunctIs((_, _, _) => None, c, FileRecord([], [], Language(0), 0));
  }

  lemma PathOrigin(c: Query, p: bytes)
    requires (FilterFree(c) || Alternatives(c)) && p in CollectFilters(c).prefixes
    ensures PathAlternatives(c)
  {
    hide CollectFilters, FilterFree;
    ConjunctIs((_, _, _) => None, c, FileRecord([], [], Language(0), 0));
  }

  /** Groups that agree: a file that passes all the collected filters is in every group. */
  lemma PassedMeans(engine: Engine, cs: seq<Query>, file: FileRecord, i: nat)
    requires Grouped(cs) && GroupsAgree(cs) && i < |cs|
    requires Passes(file, CollectAll(cs)) && Holds(engine, cs[i], file.content)
    ensures Meaning(engine, cs[i], file)
  {
    hide Meaning, Holds, CollectFilters, FilterFree, CollectAll, Within;
    ConjunctIs(engine, cs[i], file);
    CollectedFrom(cs);
    if LanguageAlternatives(cs[i]) {
      var l :| l in CollectFilters(cs[i]).languages;
      assert FromGroup(cs, l) && FromGroup(cs, file.language);
      var j :| 0 <= j < |cs| && file.language in CollectFilters(cs[j]).languages;
      LanguageOrigin(cs[j], file.language);
    } else if PathAlternatives(cs[i]) {
      var p :| p in CollectFilters(cs[i]).prefixes;
      assert FromPathGroup(cs, p);
      var q :| q in CollectAll(cs).prefixes && q <= file.path;
      assert FromPathGroup(cs, q);
      var j :| 0 <= j < |cs| && q in CollectFilters(cs[j]).prefixes;
      PathOrigin(cs[j], q);
      PrefixExtends(CollectFilters(cs[j]).prefixes, CollectFilters(cs[i]).prefixes, q, file.path);
    }
  }

  lemma PrefixExtends(a: set<bytes>, b: set<bytes>, q: bytes, path: bytes)
    requires Within(a, b) && q in a && q <= path
    ensures PrefixIn(b, path)
  {
    var p :| p in b && p <= q;
    assert path[..|p|] == q[..|p|];
    assert p <= path;
  }

  /** Filters on top whose groups agree: what the search selects is the boolean meaning of the query. */
  lemma FiltersAgree(engine: Engine, query: Query, file: FileRecord)
    requires FiltersOnTop(query) && GroupsAgree(Conjuncts(query))
    ensures Selected(engine, query, file) <==> Meaning(engine, query, file)
  {
    hide Meaning, Holds, CollectFilters, FilterFree, Alternatives, CollectAll, Conjuncts, GroupsAgree, Passes;
    var cs := Conjuncts(query);
    ConjunctsMean(engine, query, file);
    if Selected(engine, query, file) {
      forall i | 0 <= i < |cs| ensures Meaning(engine, cs[i], file) { PassedMeans(engine, cs, file, i); }
      assert AllMean(engine, cs, file);
    }
    if Meaning(engine, query, file) { MeaningHolds(engine, cs, file); }
  }

  /** The filter-free conjuncts hold on a content. */
  ghost predicate FreePartHolds(engine: Engine, cs: seq<Query>, content: bytes) {
    forall i :: 0 <= i < |cs| && FilterFree(cs[i]) ==> Holds(engine, cs[i], content)
  }

  /** A file built from one language and one path that the collected filters let pass. */
  lemma PassingFile(engine: Engine, cs: seq<Query>, file: FileRecord)
    requires Grouped(cs) && FreePartHolds(engine, cs, file.content)
    requires CollectAll(cs).languages != {} ==> file.language in CollectAll(cs).languages
    requires CollectAll(cs).prefixes != {} ==> file.path in CollectAll(cs).prefixes
    ensures Passes(file, CollectAll(cs)) && AllHold(engine, cs, file.content)
  {
    hide Meaning, Holds, CollectFilters, FilterFree, CollectAll;
    forall i | 0 <= i < |cs| ensures Holds(engine, cs[i], file.content) { ConjunctIs(engine, cs[i], file); }
  }

  /** One language and one prefix that were collected, where there are any. */
  lemma Collected(cs: seq<Query>) returns (l: Language, p: bytes)
    ensures CollectAll(cs).languages != {} ==> l in CollectAll(cs).languages
    ensures CollectAll(cs).prefixes != {} ==> p in CollectAll(cs).prefixes
  {
    hide CollectAll;
    l, p := Language(0), [];
    if CollectAll(cs).languages != {} { l :| l in CollectAll(cs).languages; }
    if CollectAll(cs).prefixes != {} { p :| p in CollectAll(cs).prefixes; }
  }

  /** Two groups that disagree: some file passes all the filters although it is not in one of the groups. */
  lemma OtherLanguage(engine: Engine, cs: seq<Query>, content: bytes, i: nat, j: nat) returns (file: FileRecord)
    requires Grouped(cs) && FreePartHolds(engine, cs, content) && i < |cs| && j < |cs|
    requires LanguageAlternatives(cs[i]) && LanguageAlternatives(cs[j])
    requires CollectFilters(cs[i]).languages != CollectFilters(cs[j]).languages
    ensures Passes(file, CollectAll(cs)) && AllHold(engine, cs, file.content) && !AllMean(engine, cs, file)
  {
    hide Meaning, Holds, CollectFilters, FilterFree, CollectAll, Alternatives, LanguageAlternatives, PathAlternatives,
      Passes;
    var _, p := Collected(cs);
    var a, b := CollectFilters(cs[i]).languages, CollectFilters(cs[j]).languages;
    var k := if a <= b then i else j;
    var l := OnlyInOne(a, b);
    CollectedFrom(cs);
    assert FromGroup(cs, l);
    file := FileRecord(p, content, l, 0);
    PassingFile(engine, cs, file);
    ConjunctIs(engine, cs[k], file);
    assert !Meaning(engine, cs[k], file);
  }

  lemma OtherPath(engine: Engine, cs: seq<Query>, content: bytes, i: nat, j: nat) returns (file: FileRecord)
    requires Grouped(cs) && FreePartHolds(engine, cs, content) && i < |cs| && j < |cs|
    requires PathAlternatives(cs[i]) && PathAlternatives(cs[j])
    requires !Within(CollectFilters(cs[i]).prefixes, CollectFilters(cs[j]).prefixes)
    ensures Passes(file, CollectAll(cs)) && AllHold(engine, cs, file.content) && !AllMean(engine, cs, file)
  {
    hide Meaning, Holds, CollectFilters, FilterFree, CollectAll, Alternatives, LanguageAlternatives, PathAlternatives,
      Passes;
    var l, _ := Collected(cs);
    var p :| p in CollectFilters(cs[i]).prefixes && !PrefixIn(CollectFilters(cs[j]).prefixes, p);
    CollectedFrom(cs);
    assert FromPathGroup(cs, p);
    file := FileRecord(p, content, l, 0);
    PassingFile(engine, cs, file);
    ConjunctIs(engine, cs[j], file);
    assert !Meaning(engine, cs[j], file);
  }

  lemma DisagreeingFile(engine: Engine, cs: seq<Query>, content: bytes) returns (file: FileRecord)
    requires Grouped(cs) && FreePartHolds(engine, cs, content) && !GroupsAgree(cs)
    ensures Passes(file, CollectAll(cs)) && AllHold(engine, cs, file.content) && !AllMean(engine, cs, file)
  {
    hide Grouped, FreePartHolds, CollectFilters, CollectAll, LanguageAlternatives, PathAlternatives, Passes, AllHold,
      AllMean, Within;
    var i, j :| 0 <= i < |cs| && 0 <= j < |cs| && !Compatible(cs[i], cs[j]);
    if PathAlternatives(cs[i]) && PathAlternatives(cs[j])
      && !Within(CollectFilters(cs[i]).prefixes, CollectFilters(cs[j]).prefixes)
    {
      file := OtherPath(engine, cs, content, i, j);
    } else {
      file := OtherLanguage(engine, cs, content, i, j);
    }
  }

  lemma OnlyInOne(a: set<Language>, b: set<Language>) returns (l: Language)
    requires a != b
    ensures if a <= b then l in b && l !in a else l in a && l !in b
  {
    if a <= b {
      assert !(b <= a);
      l :| l in b && l !in a;
    } else {
      l :| l in a && l !in b;
    }
  }

  /**
   * With filters on top and a content on which the filter-free part holds, the search agrees with the boolean meaning
   * on every file if and only if no two groups of filters of one kind disagree.
   */
  lemma FiltersAgreeExactly(engine: Engine, query: Query, content: bytes)
    requires FiltersOnTop(query) && FreePartHolds(engine, Conjuncts(query), content)
    ensures (forall file: FileRecord :: Selected(engine, query, file) <==> Meaning(engine, query, file))
       <==> GroupsAgree(Conjuncts(query))
  {
    hide Meaning, Holds, CollectFilters, FilterFree, Alternatives, CollectAll, Conjuncts, GroupsAgree, Passes;
    var cs := Conjuncts(query);
    if GroupsAgree(cs) {
      forall file: FileRecord ensures Selected(engine, query, file) <==> Meaning(engine, query, file) {
        FiltersAgree(engine, query, file);
      }
    } else {
      var file := DisagreeingFile(engine, cs, content);
      ConjunctsMean(engine, query, file);
      assert Selected(engine, query, file) && !Meaning(engine, query, file);
    }
  }

  // ---- filters elsewhere ----

  /** Queries that eval lets pass whatever the content, as filters have no content constraint, and their negations. */
  predicate AlwaysHolds(query: Query) {
    match query
    case PathFilter(_) => true
    case LanguageFilter(_) => true
    case Not(inner) => NeverHolds(inner)
    case Or(left, right) => AlwaysHolds(left) || AlwaysHolds(right)
    case And(children) => forall i :: 0 <= i < |children| ==> AlwaysHolds(children[i])
    case _ => false
  }

  predicate NeverHolds(query: Query) {
    match query
    case Not(inner) => AlwaysHolds(inner)
    case Or(left, right) => NeverHolds(left) && NeverHolds(right)
    case And(children) => exists i :: 0 <= i < |children| && NeverHolds(children[i])
    case _ => false
  }

  lemma {:induction false} FixedVerdict(engine: Engine, query: Query, content: bytes)
    ensures AlwaysHolds(query) ==> Holds(engine, query, content)
    ensures NeverHolds(query) ==> !Holds(engine, query, content)
  {
    hide Matches;
    match query
    case Not(inner) => FixedVerdict(engine, inner, content);
    case Or(left, right) =>
      FixedVerdict(engine, left, content);
      FixedVerdict(engine, right, content);
    case And(children) =>
      forall i | 0 <= i < |children|
        ensures AlwaysHolds(children[i]) ==> Holds(engine, children[i], content)
        ensures NeverHolds(children[i]) ==> !Holds(engine, children[i], content)
      {
        FixedVerdict(engine, children[i], content);
      }
    case _ =>
  }

  /** A negated filter among the conjuncts, at any depth, selects no file at all: NOT path:x, or NOT path:x foo. */
  lemma NegatedFilterSelectsNothing(engine: Engine, query: Query, i: nat, file: FileRecord)
    requires i < |Conjuncts(query)| && Conjuncts(query)[i].Not? && AlwaysHolds(Conjuncts(query)[i].inner)
    ensures !Selected(engine, query, file)
  {
    hide Holds, CollectFilters, Passes, Conjuncts, AlwaysHolds;
    ConjunctsMean(engine, query, file);
    var c := Conjuncts(query)[i];
    assert NeverHolds(c);
    FixedVerdict(engine, c, file.content);
  }

  /** The conjuncts with one of them exchanged. */
  ghost predicate SelectedAll(engine: Engine, cs: seq<Query>, file: FileRecord) {
    Passes(file, CollectAll(cs)) && AllHold(engine, cs, file.content)
  }

  /** One side of an OR is a filter, of either kind and on either side; the other side has no filter. */
  predicate FilterOr(query: Query, filter: Query) {
    IsFilter(filter) && query.Or? &&
    ((query.left == filter && FilterFree(query.right)) || (query.right == filter && FilterFree(query.left)))
  }

  lemma FilterOrActs(engine: Engine, query: Query, filter: Query, content: bytes)
    requires FilterOr(query, filter)
    ensures CollectFilters(query) == CollectFilters(filter)
    ensures Holds(engine, query, content) && Holds(engine, filter, content)
  {
    hide FilterFree, Matches;
    if query.left == filter { FixedVerdict(engine, filter, content); }
    if FilterFree(query.right) { CollectFree(query.right); }
    if FilterFree(query.left) { CollectFree(query.left); }
    FixedVerdict(engine, query, content);
  }

  lemma {:induction false} CollectExchanged(cs: seq<Query>, i: nat, d: Query)
    requires i < |cs| && CollectFilters(d) == CollectFilters(cs[i])
    ensures CollectAll(cs[i := d]) == CollectAll(cs)
  {
    hide CollectFilters;
    if i == 0 {
      assert cs[i := d][1..] == cs[1..];
    } else {
      assert cs[i := d][1..] == cs[1..][i - 1 := d];
      CollectExchanged(cs[1..], i - 1, d);
    }
  }

  /**
   * A filter on one side of an OR restricts the other side too: the search treats the whole OR as that filter and
   * ignores what stands on the other side.
   */
  lemma OrFilterRestrictsBoth(engine: Engine, query: Query, i: nat, filter: Query, file: FileRecord)
    requires i < |Conjuncts(query)| && FilterOr(Conjuncts(query)[i], filter)
    ensures Selected(engine, query, file) <==> SelectedAll(engine, Conjuncts(query)[i := filter], file)
  {
    hide Holds, CollectFilters, Passes, Conjuncts, FilterOr, CollectAll;
    var cs := Conjuncts(query);
    ConjunctsMean(engine, query, file);
    FilterOrActs(engine, cs[i], filter, file.content);
    CollectExchanged(cs, i, filter);
    forall j | 0 <= j < |cs|
      ensures Holds(engine, cs[j], file.content) <==> Holds(engine, cs[i := filter][j], file.content)
    {
    }
  }

  ghost predicate CanHold(engine: Engine, query: Query) {
    exists content :: Holds(engine, query, content)
  }

  /** The empty prefix, which every path has. */
  predicate KeepsAll(filter: Query) { filter.PathFilter? && |filter.prefix| == 0 }

  /** The search agrees with the meaning of an OR with a filter exactly if its other side implies the filter. */
  lemma OrFilterAgreesExactly(engine: Engine, query: Query, filter: Query, other: Query)
    requires IsFilter(filter) && FilterFree(other) && (query == Or(filter, other) || query == Or(other, filter))
    ensures (forall file: FileRecord :: Selected(engine, query, file) <==> Meaning(engine, query, file))
       <==> KeepsAll(filter) || !CanHold(engine, other)
  {
    hide Holds, CollectFilters, Passes;
    forall file: FileRecord
      ensures Selected(engine, query, file) <==> Meaning(engine, filter, file)
      ensures Meaning(engine, query, file) <==> Meaning(engine, filter, file) || Holds(engine, other, file.content)
    {
      OrFilterIs(engine, query, filter, other, file);
    }
    if KeepsAll(filter) {
      forall file: FileRecord ensures Meaning(engine, filter, file) {}
    } else if CanHold(engine, other) {
      var content :| Holds(engine, other, content);
      var file := OutsideFile(engine, filter, content);
      assert Meaning(engine, query, file) && !Selected(engine, query, file);
    }
  }

  lemma OrFilterIs(engine: Engine, query: Query, filter: Query, other: Query, file: FileRecord)
    requires IsFilter(filter) && FilterFree(other) && (query == Or(filter, other) || query == Or(other, filter))
    ensures Selected(engine, query, file) <==> Meaning(engine, filter, file)
    ensures Meaning(engine, query, file) <==> Meaning(engine, filter, file) || Holds(engine, other, file.content)
  {
    FilterFreeMeaning(engine, other, file);
    FilterOrActs(engine, query, filter, file.content);
    hide Holds, FilterFree;
    FilterPasses(engine, filter, file);
  }

  lemma FilterPasses(engine: Engine, filter: Query, file: FileRecord)
    requires IsFilter(filter)
    ensures Passes(file, CollectFilters(filter)) <==> Meaning(engine, filter, file)
  {
    if filter.PathFilter? { PathGroup(engine, filter, file); }
    if filter.LanguageFilter? { LanguageGroup(engine, filter, file); }
  }

  /** A file with a given content that a filter excludes. */
  lemma OutsideFile(engine: Engine, filter: Query, content: bytes) returns (file: FileRecord)
    requires IsFilter(filter) && !KeepsAll(filter)
    ensures file.content == content && !Meaning(engine, filter, file)
  {
    var l := if filter == LanguageFilter(Language(0)) then Language(1) else Language(0);
    file := FileRecord([], content, l, 0);
  }

  // Both sides of an OR are filters.

  /** The conjuncts with an OR opened up as if it were a conjunction. */
  function Opened(cs: seq<Query>, i: nat): seq<Query>
    requires i < |cs| && cs[i].Or?
  {
    cs[..i] + [cs[i].left, cs[i].right] + cs[i + 1..]
  }

  lemma OpenedCollect(cs: seq<Query>, i: nat)
    requires i < |cs| && cs[i].Or?
    ensures CollectAll(Opened(cs, i)) == CollectAll(cs)
  {
    hide CollectFilters;
    var pair := [cs[i].left, cs[i].right];
    assert cs == cs[..i] + [cs[i]] + cs[i + 1..];
    CollectConcat(cs[..i] + pair, cs[i + 1..]);
    CollectConcat(cs[..i], pair);
    CollectConcat(cs[..i] + [cs[i]], cs[i + 1..]);
    CollectConcat(cs[..i], [cs[i]]);
    OrCollect(cs[i]);
  }

  lemma OrCollect(q: Query)
    requires q.Or?
    ensures CollectAll([q]) == CollectAll([q.left, q.right])
  {
    var pair := [q.left, q.right];
    assert [q][1..] == [] && pair[1..] == [q.right] && [q.right][1..] == [];
    assert CollectAll([]) == Filters({}, {});
    assert CollectAll([q.right]) == Union(CollectFilters(q.right), CollectAll([]));
    assert CollectAll(pair) == Union(CollectFilters(q.left), CollectAll(pair[1..]));
  }

  /** Alternatives of both kinds, path:x OR language:y, among the conjuncts select what their conjunction selects. */
  lemma OrOfFiltersIsConjunction(engine: Engine, query: Query, i: nat, file: FileRecord)
    requires i < |Conjuncts(query)| && Conjuncts(query)[i].Or?
    requires AlwaysHolds(Conjuncts(query)[i].left) && AlwaysHolds(Conjuncts(query)[i].right)
    ensures Selected(engine, query, file) <==> SelectedAll(engine, Opened(Conjuncts(query), i), file)
  {
    hide Holds, CollectFilters, Passes, Conjuncts, AlwaysHolds, CollectAll;
    var cs := Conjuncts(query);
    ConjunctsMean(engine, query, file);
    OpenedCollect(cs, i);
    FixedVerdict(engine, cs[i].left, file.content);
    FixedVerdict(engine, cs[i].right, file.content);
    OrHolds(engine, cs[i], file.content);
    assert cs == cs[..i] + [cs[i]] + cs[i + 1..];
    JoinAll(engine, cs[..i] + [cs[i]], cs[i + 1..], file);
    JoinAll(engine, cs[..i], [cs[i]], file);
    var pair := [cs[i].left, cs[i].right];
    assert forall k :: 0 <= k < 2 ==> Holds(engine, pair[k], file.content);
    JoinAll(engine, cs[..i] + pair, cs[i + 1..], file);
    JoinAll(engine, cs[..i], pair, file);
    assert [cs[i]][0] == cs[i];
  }

  lemma OrHolds(engine: Engine, q: Query, content: bytes)
    requires q.Or? && Holds(engine, q.left, content)
    ensures Holds(engine, q, content)
  {
  }

  lemma BothPass(file: FileRecord, prefix: bytes, l: Language)
    ensures Passes(file, Filters({l}, {prefix})) <==> prefix <= file.path && file.language == l
  {
    assert l in {l} && prefix in {prefix};
  }

  lemma MixedOrSelected(engine: Engine, prefix: bytes, l: Language, file: FileRecord)
    ensures Selected(engine, Or(PathFilter(prefix), LanguageFilter(l)), file)
       <==> prefix <= file.path && file.language == l
  {
    var q := Or(PathFilter(prefix), LanguageFilter(l));
    assert CollectFilters(PathFilter(prefix)) == Filters({}, {prefix});
    assert CollectFilters(LanguageFilter(l)) == Filters({l}, {});
    assert CollectFilters(q) == Filters({l}, {prefix});
    assert AlwaysHolds(q.left);
    FixedVerdict(engine, q, file.content);
    hide Holds, CollectFilters, Passes;
    BothPass(file, prefix, l);
  }

  /** path:x OR language:y: the search wants both, the meaning is either, and on some file they differ. */
  lemma MixedOrNeverAgrees(engine: Engine, prefix: bytes, l: Language) returns (file: FileRecord)
    ensures var q := Or(PathFilter(prefix), LanguageFilter(l));
      && (forall f: FileRecord :: Selected(engine, q, f) <==> prefix <= f.path && f.language == l)
      && Meaning(engine, q, file) && !Selected(engine, q, file)
  {
    var q := Or(PathFilter(prefix), LanguageFilter(l));
    file := FileRecord(prefix, [], if l == Language(0) then Language(1) else Language(0), 0);
    assert Meaning(engine, q.left, file);
    hide Selected;
    forall f: FileRecord ensures Selected(engine, q, f) <==> prefix <= f.path && f.language == l {
      MixedOrSelected(engine, prefix, l, f);
    }
  }

  /** Two different languages in a conjunction are alternatives, although no file has both. */
  lemma TwoLanguagesAreAlternatives(engine: Engine, l: Language, m: Language, file: FileRecord)
    requires l != m
    ensures Selected(engine, And([LanguageFilter(l), LanguageFilter(m)]), file)
       <==> file.language == l || file.language == m
    ensures !Meaning(engine, And([LanguageFilter(l), LanguageFilter(m)]), file)
  {
    var children := [LanguageFilter(l), LanguageFilter(m)];
    assert children[1..] == [LanguageFilter(m)] && children[1..][1..] == [];
    assert CollectAll([]) == Filters({}, {});
    assert CollectAll(children[1..]) == Filters({m}, {});
    assert CollectAll(children) == Filters({l, m}, {});
    AndIs(engine, children, file);
    assert Holds(engine, children[0], file.content) && Holds(engine, children[1], file.content);
    assert !(Meaning(engine, children[0], file) && Meaning(engine, children[1], file));
  }
}
