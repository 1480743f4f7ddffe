/**
 * The typo-tolerance instantiation of the ranking-rule graph: how a query
 * node becomes weighted edges (one per typo budget that has candidates) and
 * how an edge resolves to the set of documents it matches.
 */
module TypoGraph {
  import opened Wrappers
  import Decimal

  newtype u8 = x: int | 0 <= x < 256

  /** A document-id set (a `RoaringBitmap` in the index). */
  type DocIds = set<nat>

  /** The on-disk encoding of a posting list. */
  type Bytes = seq<u8>

  /** The candidate words of a query word, bucketed by typo distance. */
  datatype WordDerivations = WordDerivations(
    original: string,
    zeroTypo: seq<string>,
    oneTypo: seq<string>,
    twoTypos: seq<string>,
    usePrefixDb: bool)

  /** Words that must match contiguously; a `None` slot is a word that was removed. */
  datatype Phrase = Phrase(words: seq<Option<string>>)

  datatype QueryTerm = WordTerm(derivations: WordDerivations) | PhraseTerm(phrase: Phrase)

  datatype LocatedQueryTerm = LocatedQueryTerm(value: QueryTerm, positions: (int, int))

  datatype QueryNode = Start | End | Term(term: LocatedQueryTerm) | Deleted

  datatype EdgeDetails<T> = Unconditional | Data(details: T)

  datatype TypoEdge = PhraseEdge(phrase: Phrase) | WordEdge(derivations: WordDerivations, nbrTypos: u8)

  /** `Decoding` is a posting list whose bytes do not decode; `Storage` stands for the
      errors a collaborator (the phrase resolver) may report. */
  datatype Error = Decoding | Storage(reason: string)

  /** The lookups the database cache answers under one read transaction:
      a key that is absent has no entry. */
  datatype DatabaseCache = DatabaseCache(wordDocids: map<string, Bytes>, prefixDocids: map<string, Bytes>)

  /** Bitmap decoding of posting bytes; `None` when the bytes are corrupt. */
  type Decoder = Bytes -> Option<DocIds>

  /** Phrase resolution, a collaborator whose workings are not part of this model. */
  type PhraseResolver = Phrase -> Result<DocIds, Error>

  type Edge = (u8, EdgeDetails<TypoEdge>)

  // ---------------------------------------------------------------------------
  // Edge labels

  /** The number of typos an edge stands for: a phrase allows none. */
  function TypoCount(edge: TypoEdge): nat {
    match edge
    case PhraseEdge(_) => 0
    case WordEdge(_, n) => n as nat
  }

  /** The graph-visualisation label of an edge, ", N typos". */
  function EdgeLabel(edge: TypoEdge): (r: string)
    ensures |r| >= 9 && r[..2] == ", " && r[|r| - 6..] == " typos"
    ensures Decimal.IsCanonical(r[2..|r| - 6]) && Decimal.DecimalValue(r[2..|r| - 6]) == TypoCount(edge)
    ensures edge.PhraseEdge? ==> r == ", 0 typos"
  {
    match edge
    case PhraseEdge(_) =>
      assert Decimal.DecimalValue("0") == Decimal.DecimalValue("") * 10 + 0;
      ", 0 typos"
    case WordEdge(_, n) =>
      var digits := Decimal.ToDecimal(n as nat);
      Decimal.DecimalRoundTrip(n as nat);
      var r := ", " + digits + " typos";
      assert r[2..|r| - 6] == digits;
      r
  }

  // ---------------------------------------------------------------------------
  // Visiting nodes

  /** The typo criterion precomputes nothing per source node and never skips one. */
  function BuildVisitFromNode(fromNode: QueryNode): (r: Result<Option<()>, Error>)
    ensures r.Ok? && r.value.Some?
  {
    Ok(Some(()))
  }

  predicate HasCost(edges: seq<Edge>, cost: u8) {
    exists k :: 0 <= k < |edges| && edges[k].0 == cost
  }

  predicate StrictlyIncreasingCosts(edges: seq<Edge>) {
    forall j, k :: 0 <= j < k < |edges| ==> edges[j].0 < edges[k].0
  }

  /** The edges into a word node: each is a word edge whose cost is its typo count
      (at most 2), costs strictly increase, and the 0-, 1- and 2-cost edges exist
      exactly when their bucket has candidates (for 0, also when prefixes are used). */
  predicate IsWordEdgeList(d: WordDerivations, edges: seq<Edge>) {
    && (forall k :: 0 <= k < |edges| ==> edges[k].0 <= 2 && edges[k].1 == Data(WordEdge(d, edges[k].0)))
    && StrictlyIncreasingCosts(edges)
    && (HasCost(edges, 0) <==> |d.zeroTypo| > 0 || d.usePrefixDb)
    && (HasCost(edges, 1) <==> |d.oneTypo| > 0)
    && (HasCost(edges, 2) <==> |d.twoTypos| > 0)
  }

  /** Edges into `toNode`; visiting `Start` or `Deleted` is a programming error. */
  method BuildVisitToNode(toNode: QueryNode) returns (edges: seq<Edge>)
    requires toNode.Term? || toNode.End?
    ensures toNode.End? ==> edges == [(0, Unconditional)]
    ensures toNode.Term? && toNode.term.value.PhraseTerm? ==>
              edges == [(0, Data(PhraseEdge(toNode.term.value.phrase)))]
    ensures toNode.Term? && toNode.term.value.WordTerm? ==>
              IsWordEdgeList(toNode.term.value.derivations, edges)
    ensures toNode.Term? && toNode.term.value.WordTerm? ==>
              var d := toNode.term.value.derivations;
              (d.zeroTypo == [] && d.oneTypo == [] && d.twoTypos == [] && !d.usePrefixDb <==> edges == [])
    ensures forall k :: 0 <= k < |edges| && edges[k].1.Data? ==> IsResolvable(edges[k].1.details)
  {
    match toNode {
      case Term(LocatedQueryTerm(value, _)) =>
        match value {
          case PhraseTerm(phrase) =>
            edges := [(0, Data(PhraseEdge(phrase)))];
          case WordTerm(derivations) =>
            edges := [];
            if derivations.zeroTypo != [] || derivations.usePrefixDb {
              edges := edges + [(0, Data(WordEdge(derivations, 0)))];
            }
            assert edges == Pushed(derivations, 0);
            if derivations.oneTypo != [] {
              edges := edges + [(1, Data(WordEdge(derivations, 1)))];
            }
            assert edges == Pushed(derivations, 0) + Pushed(derivations, 1);
            if derivations.twoTypos != [] {
              edges := edges + [(2, Data(WordEdge(derivations, 2)))];
            }
            assert edges == PushedAll(derivations);
            PushedEdgesAreWordEdgeList(derivations);
        }
      case End =>
        edges := [(0, Unconditional)];
    }
  }

  /** Whether `build_visit_to_node` pushes an edge of cost `n` (0, 1 or 2). */
  predicate Present(d: WordDerivations, n: u8)
    requires n <= 2
  {
    if n == 0 then d.zeroTypo != [] || d.usePrefixDb else Bucket(d, n) != []
  }

  /** The edge `build_visit_to_node` pushes for bucket `n`, if it pushes one. */
  function Pushed(d: WordDerivations, n: u8): seq<Edge>
    requires n <= 2
  {
    if Present(d, n) then [(n, Data(WordEdge(d, n)))] else []
  }

  lemma HasCostConcat(a: seq<Edge>, b: seq<Edge>, c: u8)
    ensures HasCost(a + b, c) <==> HasCost(a, c) || HasCost(b, c)
  {
    if HasCost(a + b, c) {
      var k :| 0 <= k < |a + b| && (a + b)[k].0 == c;
      if k < |a| {
        assert a[k] == (a + b)[k];
      } else {
        assert b[k - |a|] == (a + b)[k];
      }
    }
    if HasCost(a, c) {
      var k :| 0 <= k < |a| && a[k].0 == c;
      assert (a + b)[k] == a[k];
    }
    if HasCost(b, c) {
      var k :| 0 <= k < |b| && b[k].0 == c;
      assert (a + b)[|a| + k] == b[k];
    }
  }

  lemma IncreasingConcat(a: seq<Edge>, b: seq<Edge>)
    requires StrictlyIncreasingCosts(a) && StrictlyIncreasingCosts(b)
    requires forall j, k :: 0 <= j < |a| && 0 <= k < |b| ==> a[j].0 < b[k].0
    ensures StrictlyIncreasingCosts(a + b)
  {
    forall j, k | 0 <= j < k < |a + b| ensures (a + b)[j].0 < (a + b)[k].0 {
      if k < |a| {
        assert (a + b)[j] == a[j] && (a + b)[k] == a[k];
      } else if j < |a| {
        assert (a + b)[j] == a[j] && (a + b)[k] == b[k - |a|];
      } else {
        assert (a + b)[j] == b[j - |a|] && (a + b)[k] == b[k - |a|];
      }
    }
  }

  /** The edges `build_visit_to_node` pushes for a word term, in push order. */
  function PushedAll(d: WordDerivations): seq<Edge> {
    Pushed(d, 0) + Pushed(d, 1) + Pushed(d, 2)
  }

  lemma PushedCost(d: WordDerivations, n: u8, c: u8)
    requires n <= 2
    ensures HasCost(Pushed(d, n), c) <==> c == n && Present(d, n)
  {
    if Present(d, n) {
      assert Pushed(d, n)[0].0 == n;
    }
  }

  lemma PushedAllCost(d: WordDerivations, c: u8)
    ensures HasCost(PushedAll(d), c) <==> c <= 2 && Present(d, c)
  {
    HasCostConcat(Pushed(d, 0), Pushed(d, 1), c);
    HasCostConcat(Pushed(d, 0) + Pushed(d, 1), Pushed(d, 2), c);
    PushedCost(d, 0, c);
    PushedCost(d, 1, c);
    PushedCost(d, 2, c);
  }

  lemma PushedAllIncreasing(d: WordDerivations)
    ensures StrictlyIncreasingCosts(PushedAll(d))
  {
    IncreasingConcat(Pushed(d, 0), Pushed(d, 1));
    IncreasingConcat(Pushed(d, 0) + Pushed(d, 1), Pushed(d, 2));
  }

  lemma PushedAllShape(d: WordDerivations)
    ensures forall k :: 0 <= k < |PushedAll(d)| ==>
              PushedAll(d)[k].0 <= 2 && PushedAll(d)[k].1 == Data(WordEdge(d, PushedAll(d)[k].0))
  {
    var p0, p1, p2 := Pushed(d, 0), Pushed(d, 1), Pushed(d, 2);
    var edges := PushedAll(d);
    forall k | 0 <= k < |edges| ensures edges[k].0 <= 2 && edges[k].1 == Data(WordEdge(d, edges[k].0)) {
      if k < |p0| {
        assert edges[k] == p0[k];
      } else if k < |p0| + |p1| {
        assert edges[k] == p1[k - |p0|];
      } else {
        assert edges[k] == p2[k - |p0| - |p1|];
      }
    }
  }

  lemma PushedEdgesAreWordEdgeList(d: WordDerivations)
    ensures IsWordEdgeList(d, PushedAll(d))
    ensures d.zeroTypo == [] && d.oneTypo == [] && d.twoTypos == [] && !d.usePrefixDb <==> PushedAll(d) == []
    ensures forall k :: 0 <= k < |PushedAll(d)| && PushedAll(d)[k].1.Data? ==> IsResolvable(PushedAll(d)[k].1.details)
  {
    PushedAllShape(d);
    PushedAllIncreasing(d);
    PushedAllCost(d, 0);
    PushedAllCost(d, 1);
    PushedAllCost(d, 2);
  }

  /** The word-edge list of a derivation is determined by `IsWordEdgeList`. */
  lemma {:induction false} WordEdgeListUnique(d: WordDerivations, e1: seq<Edge>, e2: seq<Edge>)
    requires IsWordEdgeList(d, e1) && IsWordEdgeList(d, e2)
    ensures e1 == e2
  {
    forall c: u8 ensures HasCost(e1, c) <==> HasCost(e2, c) {
      if c > 2 {
        assert !HasCost(e1, c) && !HasCost(e2, c);
      }
    }
    SameCostsSameEdges(d, e1, e2);
  }

  lemma FirstCost(e: seq<Edge>)
    ensures e != [] ==> HasCost(e, e[0].0)
  {
  }

  lemma {:induction false} SameCostsSameEdges(d: WordDerivations, e1: seq<Edge>, e2: seq<Edge>)
    requires forall k :: 0 <= k < |e1| ==> e1[k].1 == Data(WordEdge(d, e1[k].0))
    requires forall k :: 0 <= k < |e2| ==> e2[k].1 == Data(WordEdge(d, e2[k].0))
    requires StrictlyIncreasingCosts(e1) && StrictlyIncreasingCosts(e2)
    requires forall c :: HasCost(e1, c) <==> HasCost(e2, c)
    ensures e1 == e2
    decreases |e1|
  {
    FirstCost(e1);
    FirstCost(e2);
    if e1 != [] {
      assert e1[0].0 == e2[0].0;
      var t1, t2 := e1[1..], e2[1..];
      forall c ensures HasCost(t1, c) <==> HasCost(t2, c) {
        if HasCost(t1, c) {
          var k :| 0 <= k < |t1| && t1[k].0 == c;
          assert HasCost(e1, c) by { assert e1[k + 1].0 == c; }
          var m :| 0 <= m < |e2| && e2[m].0 == c;
          assert m != 0;
          assert t2[m - 1].0 == c;
        }
        if HasCost(t2, c) {
          var k :| 0 <= k < |t2| && t2[k].0 == c;
          assert HasCost(e2, c) by { assert e2[k + 1].0 == c; }
          var m :| 0 <= m < |e1| && e1[m].0 == c;
          assert m != 0;
          assert t1[m - 1].0 == c;
        }
      }
      SameCostsSameEdges(d, t1, t2);
      assert e1 == [e1[0]] + t1 && e2 == [e2[0]] + t2;
    }
  }

  // ---------------------------------------------------------------------------
  // Resolving edges

  /** A word edge is resolvable only for the typo buckets 0, 1 and 2. */
  predicate IsResolvable(edge: TypoEdge) {
    edge.WordEdge? ==> edge.nbrTypos <= 2
  }

  function Bucket(d: WordDerivations, nbrTypos: u8): seq<string>
    requires nbrTypos <= 2
  {
    if nbrTypos == 0 then d.zeroTypo else if nbrTypos == 1 then d.oneTypo else d.twoTypos
  }

  /** The union of the decoded postings of `words`, taken left to right; a word
      without an entry adds nothing, an entry that fails to decode is an error. */
  function UnionPostings(entries: map<string, Bytes>, decode: Decoder, words: seq<string>): Result<DocIds, Error>
    decreases |words|
  {
    if words == [] then Ok({})
    else
      var w := words[|words| - 1];
      match UnionPostings(entries, decode, words[..|words| - 1])
      case Err(e) => Err(e)
      case Ok(acc) =>
        if w !in entries then Ok(acc)
        else match decode(entries[w])
          case None => Err(Decoding)
          case Some(bitmap) => Ok(acc + bitmap)
  }

  /** Every word of `words` that has an entry decodes. */
  ghost predicate AllPresentDecode(entries: map<string, Bytes>, decode: Decoder, words: seq<string>) {
    forall w :: w in words && w in entries ==> decode(entries[w]).Some?
  }

  /** `doc` is in the decoded posting list of some word of `words`. */
  ghost predicate InSomePosting(entries: map<string, Bytes>, decode: Decoder, words: seq<string>, doc: nat) {
    exists w :: w in words && w in entries && decode(entries[w]).Some? && doc in decode(entries[w]).value
  }

  /** The union succeeds exactly when every present entry decodes, fails only with
      a decoding error, and holds exactly the documents of the present words. */
  lemma {:induction false} UnionPostingsMeaning(entries: map<string, Bytes>, decode: Decoder, words: seq<string>)
    ensures var r := UnionPostings(entries, decode, words);
      && (r.Ok? <==> AllPresentDecode(entries, decode, words))
      && (r.Err? ==> r.error == Decoding)
      && (r.Ok? ==> forall doc :: doc in r.value <==> InSomePosting(entries, decode, words, doc))
    decreases |words|
  {
    if words != [] {
      var init, w := words[..|words| - 1], words[|words| - 1];
      assert words == init + [w];
      UnionPostingsMeaning(entries, decode, init);
      var r := UnionPostings(entries, decode, words);
      if r.Ok? {
        forall doc ensures doc in r.value <==> InSomePosting(entries, decode, words, doc) {
          if InSomePosting(entries, decode, words, doc) {
            var v :| v in words && v in entries && decode(entries[v]).Some? && doc in decode(entries[v]).value;
            if v != w {
              assert v in init;
            }
          }
        }
      }
    }
  }

  /** The union depends only on which words occur, not on their order or repetition. */
  lemma UnionPostingsOrderIndependent(entries: map<string, Bytes>, decode: Decoder, ws1: seq<string>, ws2: seq<string>)
    requires forall w :: w in ws1 <==> w in ws2
    ensures UnionPostings(entries, decode, ws1) == UnionPostings(entries, decode, ws2)
  {
    UnionPostingsMeaning(entries, decode, ws1);
    UnionPostingsMeaning(entries, decode, ws2);
    var r1, r2 := UnionPostings(entries, decode, ws1), UnionPostings(entries, decode, ws2);
    if r1.Ok? && r2.Ok? {
      assert forall doc :: InSomePosting(entries, decode, ws1, doc) <==> InSomePosting(entries, decode, ws2, doc);
      assert r1.value == r2.value;
    }
  }

  /** The documents of a word edge: its bucket's postings and, at 0 typos, the
      prefix postings of the original word. */
  function WordEdgeDocids(cache: DatabaseCache, decode: Decoder, d: WordDerivations, nbrTypos: u8): Result<DocIds, Error>
    requires nbrTypos <= 2
  {
    match UnionPostings(cache.wordDocids, decode, Bucket(d, nbrTypos))
    case Err(e) => Err(e)
    case Ok(docids) =>
      if nbrTypos == 0 && d.original in cache.prefixDocids then
        match decode(cache.prefixDocids[d.original])
        case None => Err(Decoding)
        case Some(bitmap) => Ok(docids + bitmap)
      else
        Ok(docids)
  }

  function EdgeDocids(cache: DatabaseCache, decode: Decoder, resolvePhrase: PhraseResolver, edge: TypoEdge): Result<DocIds, Error>
    requires IsResolvable(edge)
  {
    match edge
    case PhraseEdge(phrase) => resolvePhrase(phrase)
    case WordEdge(d, n) => WordEdgeDocids(cache, decode, d, n)
  }

  /** A word edge resolves, when every present entry decodes, to exactly the
      documents of the bucket's present words, plus the prefix documents of the
      original word at 0 typos; otherwise it fails with a decoding error. */
  lemma WordEdgeDocidsMeaning(cache: DatabaseCache, decode: Decoder, d: WordDerivations, nbrTypos: u8)
    requires nbrTypos <= 2
    ensures var r := WordEdgeDocids(cache, decode, d, nbrTypos);
      var withPrefix := nbrTypos == 0 && d.original in cache.prefixDocids;
      && (r.Ok? <==> AllPresentDecode(cache.wordDocids, decode, Bucket(d, nbrTypos))
                     && (withPrefix ==> decode(cache.prefixDocids[d.original]).Some?))
      && (r.Err? ==> r.error == Decoding)
      && (r.Ok? ==> forall doc :: doc in r.value <==>
            InSomePosting(cache.wordDocids, decode, Bucket(d, nbrTypos), doc)
            || (withPrefix && doc in decode(cache.prefixDocids[d.original]).value))
  {
    UnionPostingsMeaning(cache.wordDocids, decode, Bucket(d, nbrTypos));
  }

  /** Resolves an edge to its documents, as `compute_docids` does: the phrase
      resolver for a phrase edge, a union over the bucket's words for a word edge. */
  method ComputeDocids(cache: DatabaseCache, decode: Decoder, resolvePhrase: PhraseResolver, edge: TypoEdge)
    returns (r: Result<DocIds, Error>)
    requires IsResolvable(edge)
    ensures edge.PhraseEdge? ==> r == resolvePhrase(edge.phrase)
    ensures r == EdgeDocids(cache, decode, resolvePhrase, edge)
  {
    match edge
    case PhraseEdge(phrase) =>
      r := resolvePhrase(phrase);
    case WordEdge(derivations, nbrTypos) =>
      var words := Bucket(derivations, nbrTypos);
      var docids: DocIds := {};
      for i := 0 to |words|
        invariant UnionPostings(cache.wordDocids, decode, words[..i]) == Ok(docids)
      {
        var word := words[i];
        assert words[..i + 1][..i] == words[..i];
        if word !in cache.wordDocids {
          continue;
        }
        var bitmap := decode(cache.wordDocids[word]);
        if bitmap.None? {
          UnionPostingsMeaning(cache.wordDocids, decode, words[..i + 1]);
          UnionPostingsMeaning(cache.wordDocids, decode, words);
          assert word in words;
          r := Err(Decoding);
          return;
        }
        docids := docids + bitmap.value;
      }
      assert words[..|words|] == words;
      if nbrTypos == 0 {
        if derivations.original in cache.prefixDocids {
          var bitmap := decode(cache.prefixDocids[derivations.original]);
          if bitmap.None? {
            r := Err(Decoding);
            return;
          }
          docids := docids + bitmap.value;
        }
      }
      r := Ok(docids);
  }
}
