# Typo edges of the ranking-rule graph, and the query tokenizer

This project is a Dafny model of two pieces of a search engine's query
pipeline, with proofs about them.

- **The typo ranking rule's graph** (`typo_graph.dfy`, module `TypoGraph`).
  Each query term in the query graph gets weighted edges into its node: one
  per typo budget (0, 1 or 2) that has candidate words, and the 0-cost edge
  also when the prefix database is used. A phrase or the end node gets a
  single 0-cost edge. An edge resolves to a document set. A phrase
  edge goes to the phrase resolver. A word edge takes the union of its words'
  posting lists and, at 0 typos, adds the prefix posting list of the original
  word. The module also models the visualisation label of an edge.
- **The query tokenizer** (`query_tokens.dfy`, module `QueryTokens`). This is
  an iterator over a query string. It yields free tokens, which are runs of
  alphanumeric characters, and quoted tokens, which run from a `"` to the next
  `"` or to the end of the input. A state machine of `Free(start)`,
  `Quoted(start)` and `Fused` drives it. The state machine is a class whose
  `Next` method loops over characters exactly as the iterator's `next` does.
  The pure function `NextStep` specifies that method, and the properties are
  proved about `NextStep`.

`decimal.dfy` holds the decimal rendering of an integer, which the edge
label uses. `wrappers.dfy` holds `Option` and `Result`.

Collaborators are parameters:
- The bitmap decoder is a `Decoder` function. Corrupt bytes give `None`.
- The phrase resolver is a `PhraseResolver` function.
- The database cache is a value with two maps: word to posting bytes, and
  prefix to posting bytes.
- The Unicode `is_alphanumeric` test is a `char -> bool` given to the lexer's
  constructor.

Document-id bitmaps are `set<nat>`.

## Model

| member | source | states |
|---|---|---|
| TypoGraph.EdgeLabel | milli/src/search/new/ranking_rule_graph/typo/mod.rs:26-31 | the label is `", "`, a canonical decimal numeral (no leading zero), then `" typos"`; the numeral reads back as the edge's typo count, and is `0` for a phrase edge; with `Decimal.CanonicalRoundTrip` this fixes the label completely |
| Decimal.ToDecimal | milli/src/search/new/ranking_rule_graph/typo/mod.rs:29 | the rendering `format!` prints for a count is a canonical numeral: digits only, no leading zero except for `0` itself |
| Decimal.DecimalRoundTrip | milli/src/search/new/ranking_rule_graph/typo/mod.rs:29 | rendering a count in decimal and reading it back gives the count again |
| Decimal.CanonicalRoundTrip | milli/src/search/new/ranking_rule_graph/typo/mod.rs:29 | every canonical numeral is the rendering of the number it denotes, so a count has exactly one canonical numeral |
| TypoGraph.BuildVisitFromNode | milli/src/search/new/ranking_rule_graph/typo/mod.rs:69-76 | every source node is visited, with no precomputed data |
| TypoGraph.BuildVisitToNode | milli/src/search/new/ranking_rule_graph/typo/mod.rs:78-125 | end node: one unconditional 0-cost edge; phrase: one 0-cost phrase edge; word: a word-edge list in which costs equal the typo count and strictly increase, the 0-cost edge exists iff there are exact candidates or prefixes are used, and the 1- and 2-cost edges exist iff their buckets are non-empty; a word gets no edge only when every bucket is empty and prefixes are off; every edge produced is resolvable |
| TypoGraph.PushedEdgesAreWordEdgeList | milli/src/search/new/ranking_rule_graph/typo/mod.rs:90-119 | the three conditional pushes give a word-edge list, an empty one exactly when no bucket has candidates and prefixes are off, and every edge in it is resolvable |
| TypoGraph.WordEdgeListUnique | milli/src/search/new/ranking_rule_graph/typo/mod.rs:90-119 | two lists that both meet the word-edge-list description are equal, so the description fixes the output completely |
| TypoGraph.ComputeDocids | milli/src/search/new/ranking_rule_graph/typo/mod.rs:33-67 | a phrase edge gives the phrase resolver's answer; a word edge gives the result of `EdgeDocids`, so the loop over the bucket's words computes the union that `UnionPostings` specifies, with an early decoding error |
| TypoGraph.UnionPostingsMeaning | milli/src/search/new/ranking_rule_graph/typo/mod.rs:48-54 | the union succeeds iff every word that has an entry decodes; a failure is always a decoding error; on success a document is in the union iff it is in the decoded postings of some present word |
| TypoGraph.UnionPostingsOrderIndependent | milli/src/search/new/ranking_rule_graph/typo/mod.rs:48-54 | the union depends only on which words occur, not on their order or on repeats |
| TypoGraph.WordEdgeDocidsMeaning | milli/src/search/new/ranking_rule_graph/typo/mod.rs:41-65 | a word edge resolves iff every present bucket entry decodes and, at 0 typos, the original word's prefix entry (if any) decodes; any failure is a decoding error; the result holds exactly the documents of the present bucket words, plus the prefix documents at 0 typos |
| QueryTokens.NextStep | src/query_tokens.rs:46-78 | one `next` call never moves backwards and stays within the query; an emitted token lies inside the query; a call that emits a token has consumed a character, or it is the final flush at the end that leaves the lexer fused |
| QueryTokens.NextStepSound | src/query_tokens.rs:46-78 | from a reachable state, one `next` call keeps the lexer reachable. A free token it emits is a maximal non-empty run of alphanumeric non-quote characters. A quoted token follows a `"`, holds no `"`, and ends at a `"` or at the end of the input. The token starts no earlier than the pending token's start and ends before the next token can begin. `None` comes only once the lexer is fused at the end |
| QueryTokens.FusedForever | src/query_tokens.rs:50-57 | once `next` has returned `None` from a reachable state, the lexer is fused at the end and every later call returns `None` and changes nothing |
| QueryTokens.SpansOrdered | src/query_tokens.rs:46-78 | all tokens of a run are well formed as above, and they come in strictly increasing position order without overlap; that no character is dropped is `TokensCoverQuery` |
| QueryTokens.NextStepCovers | src/query_tokens.rs:46-78 | from a reachable state, one `next` call drops none of the characters it consumes: each word character outside quotes lies in the free token it emits, each non-quote character inside quotes in the quoted token it emits, and an opening `"` is followed by the quoted token it emits or by the quoted state it leaves; the emitted token is quoted exactly when it starts inside quotes; the new state is outside quotes when free and inside when quoted |
| QueryTokens.SpansCover | src/query_tokens.rs:46-78 | from a reachable state, every word character outside quotes still ahead lies in some free token of the run, every non-quote character inside quotes in some quoted token, and every opening `"` ahead is followed by a quoted token starting right after it; every token of the run is quoted exactly when it starts inside quotes |
| QueryTokens.TokensCoverQuery | src/query_tokens.rs:46-78 | for every query, the tokens of a fresh lexer drop nothing and follow the quotes: a word character preceded by an even number of `"` lies in a free token; any character other than `"` preceded by an odd number of `"` lies in a quoted token; every `"` preceded by an even number of `"` is followed by a quoted token that starts right after it, empty ones included; a token is quoted exactly when an odd number of `"` precede its start |
| QueryTokens.StepKeepsReachable | src/query_tokens.rs:46-78 | one `next` call from a reachable state, outside quotes when free and inside when quoted, leads to another such state |
| QueryTokens.QuotedEmits | src/query_tokens.rs:47-63 | from inside quotes, the next call emits the quoted token begun at the state's start; it ends at the first `"` at or after the current position, or at the end of the input when there is none |
| QueryTokens.QuotedRun | src/query_tokens.rs:61-76 | inside quotes, a run of characters other than `"` is passed over without changing the result of `next` |
| QueryTokens.FreeRun | src/query_tokens.rs:61-76 | inside a free token, a run of alphanumeric non-quote characters is passed over without changing the result of `next` |
| QueryTokens.SeparatorRun | src/query_tokens.rs:71-75 | between tokens, a run of separators (non-alphanumeric, non-quote) only moves the pending free token's start past it |
| QueryTokens.OneQuotedString | src/query_tokens.rs:89-91 | `"hello"` tokenizes to `Quoted("hello")` and then ends |
| QueryTokens.OnePendingQuotedString | src/query_tokens.rs:98-100 | an unterminated `"hello` tokenizes to `Quoted("hello")` and then ends |
| QueryTokens.OneNonQuotedString | src/query_tokens.rs:107-109 | `hello` tokenizes to `Free("hello")` and then ends |
| QueryTokens.QuotedDirectlyFollowedByFreeStrings | src/query_tokens.rs:116-119 | `"hello"world` tokenizes to `Quoted("hello")`, `Free("world")` |
| QueryTokens.FreeDirectlyFollowedByQuotedStrings | src/query_tokens.rs:126-129 | `hello"world"` tokenizes to `Free("hello")`, `Quoted("world")` |
| QueryTokens.FreeFollowedByQuotedStrings | src/query_tokens.rs:136-139 | `hello "world"` tokenizes to `Free("hello")`, `Quoted("world")` |
| QueryTokens.MultipleSpacesSeparatedStrings | src/query_tokens.rs:146-149 | `hello    world   ` tokenizes to `Free("hello")`, `Free("world")`, with trailing spaces yielding nothing |
| QueryTokens.MultiInterleavedQuotedFreeStrings | src/query_tokens.rs:156-161 | `hello "world" coucou "monde"` tokenizes to `Free("hello")`, `Quoted("world")`, `Free("coucou")`, `Quoted("monde")` |
| QueryTokens.EmptyQuotedToken | src/query_tokens.rs:61-66 | `a""b` tokenizes to `Free("a")`, an empty `Quoted("")`, `Free("b")` |
| QueryTokens.TrailingQuoteToken | src/query_tokens.rs:50-57 | `ab"` tokenizes to `Free("ab")` and an empty `Quoted("")` |
| QueryTokens.QueryTokens.constructor | src/query_tokens.rs:34-40 | a new lexer starts in `Free(0)` at position 0, which satisfies `Reachable()` |
| QueryTokens.QueryTokens.Next | src/query_tokens.rs:46-78 | the loop leaves the lexer in the state and position `NextStep` gives, and returns the token of `NextStep`'s span or `None`; `Reachable()` is kept |

The scenario lemmas state the token sequences for any `is_alphanumeric`
test that accepts the lower-case letters and rejects the space. `Tokenize`
is the sequence of tokens that repeated `next` calls on a fresh lexer give
before the first `None`.

`Valid()` is what `Next` needs to run. `Reachable()` is the stronger
invariant of the states a fresh lexer reaches, on which the soundness and
coverage lemmas hold. The fields are public in the model, so `Next` does
not demand `Reachable()`; it promises to keep it.

## Left out

- `log_state` (typo/mod.rs:127-137): it only forwards to the search logger, which is outside the model.
- The ranking-rule graph itself, the empty-paths cache and path search are outside the model. Only the typo criterion's edge builders, edge resolution and edge label are modelled.
- TypoGraph.ComputeDocids: storage errors from `get_word_docids` and `get_prefix_docids` (the `?` after each lookup) are not modelled. The cache is a pair of maps, and a lookup only finds an entry or finds none.
- TypoGraph.ComputeDocids: the memoisation inside the database cache is not modelled, because the cache is an immutable value here.
- TypoGraph.ComputeDocids: `resolve_phrase` is a parameter (`PhraseResolver`), because its source is not part of this model.
- TypoGraph.ComputeDocids: a word edge with more than two typos makes the source panic. Here it is excluded by the precondition `IsResolvable`, and `BuildVisitToNode` only produces resolvable edges.
- TypoGraph.BuildVisitToNode: the `Start` and `Deleted` nodes make the source panic. Here they are excluded by the precondition. The result is a plain sequence rather than a `Result`, because the source never returns an error here.
- TypoGraph.ComputeDocids: the concrete byte layout of a roaring bitmap is not modelled. Decoding is the `Decoder` parameter.
- QueryTokens: `char::is_alphanumeric` is a parameter of the lexer, because Unicode character classes are outside the model.
- QueryTokens: positions count characters, not UTF-8 bytes. `len_utf8` is taken as 1, so `afteri` is `i + 1`, and slices are character slices.
- QueryTokens.NextStep: a `"` read in the `Fused` state returns `None` and switches to `Free` after the quote, as in the source. The property lemmas show this branch is unreachable, because `Fused` is only entered at the end of the input.
