# Epstein files dashboard — a Dafny model of its core logic

The dashboard is a single Streamlit script, `app.py`. Its `main()` reads a
SQLite database of released files (`files`, `text_cache`, `search_results`,
`entities`, `entity_cooccurrence`) and shows tabs over it. Beneath the UI
calls there is a small set of deterministic operations over strings and
rows. This project lifts them out as pure Dafny functions and one
imperative method, and proves what they compute:

- **Keyword indexer** (sidebar "Search & Add to Database").
  - It parses one keyword per line and de-duplicates the keywords by a dict.
  - For each keyword it deletes the keyword's `search_results` rows.
  - It then inserts one row per document with text that mentions the
    keyword. The row holds the number of leftmost non-overlapping
    case-insensitive matches and a whitespace-collapsed ±150-character
    context.
- **Full-text search**.
  - A `LIKE '%term%'` query capped at 200 rows.
  - Rows are fetched in batches of ten, with a running hit count.
  - Each result gets a ±200-character snippet whose first match is
    wrapped in `**`; without a match the snippet is the first 400
    characters.
- **Anchor tabs** ("Trump", "Bannon").
  - The files mentioning an anchor term.
  - Keyword and entity co-occurrence: group, count distinct files, sum
    mentions, exclude the anchor, keep the top 30.
  - Category scores, each a maximum over the category's terms.
  - The Bubba-only difference by file id.
  - The ±300-character stripped snippets.
- **Browse files**: three optional filters, ordered by dataset and
  filename, limited to 500.
- **Statistics**: the two `CASE WHEN` histograms, file size and text
  length.
- **Relationship graph**.
  - Top entities over a file-count threshold, plus key figures
    force-added when they have entity rows.
  - The edge merge: threshold edges first, then key-figure edges that
    never overwrite.
  - The drawing loop that adds nodes only at the ends of retained edges,
    and the colour, size and shape rule.

The modules are:

- `Text`: Python's `strip`, `split('\n')`, `split()`, `' '.join` and
  ASCII lower-casing.
- `Matching`: `find`, `finditer` and SQLite `LIKE`.
- `Corpus`: table rows.
- `Ranking`: `ORDER BY … LIMIT`.
- `Aggregate`: `GROUP BY`.
- `KeywordIndex`, `Snippets`, `FullTextSearch`, `AnchorQueries`,
  `Browse`, `Buckets`, `Graph`.
- `Basics`: shared helpers.

Database state is a sequence of rows per table. A query is a pure
function over those rows, and a committed write is one step from the old
table to the new one.

## Model

| member | source | states |
|---|---|---|
| KeywordIndex.ParseKeywords | app.py:785 | the keywords are exactly the stripped non-empty lines of the input, in order; each is non-empty with no surrounding whitespace, and the outer `strip()` changes nothing |
| KeywordIndex.RunIndexer | app.py:784-817 | the indexed keywords are distinct and are exactly the parsed lines (dict de-duplication); each one's stored rows are exactly its fresh scan; rows of every other keyword are untouched; the total is the sum of the per-keyword hits |
| KeywordIndex.RunIndexerIdempotent | app.py:784-817 | pressing the button twice with the same input leaves the table as one press does |
| KeywordIndex.IndexKeyword | app.py:798-815 | replace, not merge: after re-indexing, the keyword's rows are exactly the scan, whatever was stored before; other keywords' rows are unchanged; `kw_hits` is the sum of the stored match counts |
| KeywordIndex.IndexAll | app.py:797-816 | each listed keyword ends with exactly its fresh scan, unlisted keywords keep their rows, and the total is the sum of per-keyword hits |
| KeywordIndex.IndexAllShape | app.py:797-816 | for distinct keywords the new table is the old rows of other keywords followed by the fresh scans in keyword order |
| KeywordIndex.IndexAllIdempotent | app.py:800 | running the indexing loop twice over the same corpus gives the same table as once |
| KeywordIndex.RowsOfWithout | app.py:800 | deleting one keyword's rows leaves every other keyword's rows exactly as they were |
| KeywordIndex.ScanDescribes | app.py:791-812 | one row per document with `char_count > 0` and at least one match, in corpus order; each row has the document's id, the keyword, a match count equal to the number of leftmost non-overlapping matches (at least 1) and the context of the first match |
| KeywordIndex.ScanHitsAreStored | app.py:801-813 | `kw_hits` equals the sum of the match counts stored for the keyword |
| KeywordIndex.IndexContext | app.py:805-808 | the context has no whitespace at either end and single spaces between words, and holds exactly the words of the text from 150 characters before the first match to 150 after its end, clipped to the text |
| Text.Collapse | app.py:808 | `' '.join(s.split())` is whitespace-normal and keeps the words of `s` |
| Text.WordsOfJoin | app.py:808 | splitting the space-join of a list of non-empty space-free words gives the list back |
| Text.JoinSplitLines | app.py:785 | joining the pieces of `split('\n')` with newlines gives the string back |
| Text.SplitJoinLines | app.py:785 | splitting the newline-join of newline-free pieces gives the pieces back |
| Text.StripIsSlice | app.py:323 | `strip()` removes only whitespace, and only at the two ends |
| Text.StripBorders | app.py:323 | what `strip()` keeps starts at `StripStart`, and everything before and after it is whitespace |
| Text.StripSlice | app.py:323 | stripping the slice `text[start:end]` keeps a slice of the text inside `[start, end)` and cuts only whitespace between it and `start` and `end` |
| Text.StripKeeps | app.py:323 | `strip()` keeps every character between two non-space characters |
| Matching.Find | app.py:494-495 | `lower().find(...)` is -1 exactly when the term occurs nowhere (ASCII case ignored); otherwise it is the first position where it occurs |
| Matching.MatchesFromLeftmost | app.py:803 | the `finditer` scan misses no occurrence except one overlapping an earlier reported match |
| Matching.MatchesFrom | app.py:803 | every reported position is an occurrence, and successive reported matches do not overlap |
| Matching.Matches | app.py:803-805 | the scan reports something exactly when the term occurs, and its first report is the first occurrence |
| Matching.CountMatches | app.py:803-804 | the number of matches is positive exactly when the term occurs |
| Matching.LikeContainsIffOccurs | app.py:474 | for a term without `%` or `_`, `LIKE '%term%'` holds exactly when the term occurs, ASCII case ignored |
| Matching.LikeLeadingPercent | app.py:474 | a leading `%` matches exactly when some suffix matches the rest of the pattern |
| Matching.EmptyContainsMatchesAll | app.py:420-422 | `LIKE '%%'` matches every string |
| Matching.Window | app.py:497-498 | the clipped window contains the span, reaches exactly `radius` past each end unless the text ends first, and never more |
| Snippets.Highlight | app.py:492-509 | with a match: removing the two `**` markers gives back the context `text[max(0,idx-200) .. min(len, idx+len(term)+200)]`; the markers sit around the first occurrence, and the marked span matches the term up to case. Without a match: the first `min(400, len)` characters |
| Snippets.Mark | app.py:503-507 | wrapping a span adds exactly four characters, puts a marker on each side, keeps the span, and un-marking restores the context |
| Snippets.AnchorSnippet | app.py:316-325 | at most 600 characters; with an occurrence, no whitespace at either end; otherwise the first `min(600, len)` characters |
| Snippets.AnchorSnippetIsWindow | app.py:316-325 | with an occurrence, the snippet is a slice of the text inside the window `[max(0, idx-300), min(len, idx+300))`, and only whitespace of the window lies between it and the window's ends |
| Snippets.AnchorSnippetShowsName | app.py:316-325 | a space-free name no longer than 300 that occurs in the text still occurs in the stripped snippet |
| FullTextSearch.SearchQueryAsWritten | app.py:470-476 | at most 200 documents, each from the corpus, none listed more often than it occurs there, and matching the raw `LIKE '%term%'` pattern; when fewer than 200 are returned, every matching document is among them |
| FullTextSearch.SearchQuery | app.py:470-476 | at most 200 documents of the corpus, none listed more often than it occurs there, in which the term literally occurs (ASCII case ignored); when fewer than 200 are returned, every such document is among them |
| FullTextSearch.SearchQueryAgrees | app.py:470-476 | for a term without `%` or `_`, the query as written and the literal-containment query return the same rows |
| FullTextSearch.SearchAsWrittenMatchesWildcard | app.py:470-476 | with `_` in the term, the query as written returns a document in which the term does not occur, whose snippet falls back to the unmarked prefix |
| FullTextSearch.FetchMany | app.py:483 | a batch is the next `min(n, remaining)` rows after the cursor |
| FullTextSearch.StreamHits | app.py:478-490 | after the loop, `results` is the whole query result and `hit_count == len(results)`; the counts shown are `min(10·k, total)` for `k = 1, 2, …`, strictly increasing, with one per batch (`⌈total/10⌉`) and the last equal to the total |
| FullTextSearch.BatchCount | app.py:482-487 | the number of ten-row batches for `n` rows is `n/10` rounded up |
| FullTextSearch.HighlightAll | app.py:492-509 | one snippet per result: where `find` locates the term the snippet shows it (up to case), otherwise it is the unmarked first `min(400, len)` characters of the text |
| FullTextSearch.Search | app.py:464-509 | an empty term does nothing; otherwise the results are the rows of the `LIKE` query as written (for a term without `%` or `_`, the documents in which the term occurs), the hit count is their number; a result in which `find` locates the term gets a snippet that shows the term, any other the unmarked first `min(400, len)` characters; without wildcards every result is of the first kind |
| Ranking.SelectFirst | app.py:430 | `ORDER BY … LIMIT n` returns `min(n, len)` rows in order; together with the rows left out they are the input as a multiset; every returned row may precede every left-out one |
| Ranking.TopByKey | app.py:141-142 | `min(n, len)` elements of the input, keys non-increasing; an element is left out only when `n` are returned, all with keys at least its own |
| Ranking.SortByKeyDesc | app.py:678 | a permutation of the input with non-increasing keys |
| Aggregate.GroupBy | app.py:134-140 | one group per distinct key; each holds the set of distinct files of its rows (`COUNT(DISTINCT file_id)`) and the sum of their amounts, and the only groups are those of keys that occur |
| Aggregate.RankGroups | app.py:134-142 | `min(n, groups)` groups, each a group of the input (none listed twice, keys distinct) with the values of its key, with non-increasing file counts; a group is left out only when the limit is reached by groups with at least as many files |
| Aggregate.RankGroupsListed | app.py:134-142 | a key that occurs among the rows is listed whenever fewer than `n` groups are |
| Aggregate.RankGroupsAtLeast | app.py:652-657 | at most `n` groups of the input, none listed twice, each with at least `least` files and the values of its key; most files first; a group over the threshold is left out only when the limit is reached by groups with at least as many files |
| AnchorQueries.AnchorDocs | app.py:90-95 | the distinct documents whose text matches `LIKE '%term%'`, no other and none missing |
| AnchorQueries.KeywordCooccurrence | app.py:130-143 | at most 30 distinct keywords other than "Donald Trump" and "Trump", each a group of the stored rows of anchor files with its distinct anchor files and summed match counts, most shared files first; a keyword group is left out only when 30 are listed, none with fewer shared files; no row when there is no anchor file |
| AnchorQueries.KeywordFactsComplete | app.py:137-139 | every stored row of an anchor file whose keyword is not an anchor name takes part in the grouping |
| AnchorQueries.KeywordListed | app.py:130-143 | a keyword stored for an anchor file, other than the anchor's own, is listed whenever fewer than 30 keywords are |
| AnchorQueries.KeywordGuardRedundant | app.py:131 | with no anchor file the grouped query would return no row anyway |
| AnchorQueries.EntityCooccurrence | app.py:292-304 | at most 30 distinct (name, label) groups of entity rows in Bannon files, none whose name contains "bannon" in any case, each with its distinct files and summed counts, most files first; a group is left out only when 30 are listed, none with fewer files; no row when there is no Bannon file |
| AnchorQueries.EntityFactsComplete | app.py:299-301 | every entity row of a Bannon file whose name does not match `LIKE '%bannon%'` takes part in the grouping |
| AnchorQueries.EntityListed | app.py:292-304 | an entity found in a Bannon file under a name without "bannon" is listed with its label whenever fewer than 30 entities are |
| AnchorQueries.EntityGuardRedundant | app.py:292 | with no Bannon file the grouped query would return no row anyway |
| AnchorQueries.CategoryScore | app.py:167-180 | the score is at least every term's file count and equals one of them (0 for no terms) |
| AnchorQueries.CategoryScores | app.py:154-180 | one score per category in the listed order, each the maximum over its terms of the number of Trump files matching the term |
| AnchorQueries.BubbaOnly | app.py:334 | a Bubba file is kept exactly when its id is not a Bannon file's id, and the kept files stay in the Bubba order; with no Bannon file the whole Bubba list is kept |
| AnchorQueries.BubbaGuardRedundant | app.py:334 | the `if not bannon_files.empty` guard changes nothing: filtering by an empty id set keeps every file in order |
| AnchorQueries.BannonSnippetsShowName | app.py:313-325 | every file listed under "All Files Mentioning Bannon" has an occurrence of "bannon", so it gets the centred snippet, and that snippet shows the name |
| AnchorQueries.BubbaSnippetsShowName | app.py:334-347 | every file listed under the additional Bubba files gets the centred snippet, and it shows "bubba" |
| Browse.BrowseFiles | app.py:414-430 | at most 500 files, none listed more often than it occurs among the rows, each satisfying every chosen filter, ordered by dataset then filename; a matching file is left out only when 500 are listed, all ordered before it |
| Browse.NameIsContainment | app.py:417-428 | for a name without `%` or `_`, a file is selected exactly when its dataset, its filename containing the name (ASCII case ignored) and its text status all match |
| Browse.EmptyNameSelectsAll | app.py:420-422 | skipping the filename condition for an empty name changes nothing |
| Browse.BeforeIsPreorder | app.py:430 | ordering by dataset then filename is total and transitive |
| Browse.TextLeAntisymmetric | app.py:430 | the text collation orders distinct filenames strictly |
| Buckets.Classify | app.py:535-540 | the `CASE` picks the first bound above the value: every earlier bound is at most the value |
| Buckets.ClassifyIff | app.py:535-540 | with increasing bounds, a value lands in bucket `k` exactly when it lies in the `k`-th half-open range |
| Buckets.ClassifyMonotone | app.py:535-540 | a larger value never lands in an earlier bucket |
| Buckets.LabelIff | app.py:535-540 | with increasing bounds and distinct labels, a value gets the label of bucket `k` exactly when it lies in the `k`-th range |
| Buckets.EarlierBucketSmaller | app.py:545 | every value of an earlier bucket is below every value of a later one, so `ORDER BY MIN(...)` lists buckets in index order |
| Buckets.SizeRange | app.py:535-541 | one of the five size labels; label `k` exactly for the sizes from the `k`-th bound up to the next (`< 10240`, `[10240, 102400)`, `[102400, 1048576)`, `[1048576, 10485760)`, `>= 10485760`) |
| Buckets.TextLength | app.py:552-558 | one of the five length labels; label `k` exactly for the counts from the `k`-th bound up to the next (`< 100`, `[100, 1000)`, `[1000, 10000)`, `[10000, 100000)`, `>= 100000`) |
| Buckets.Histogram | app.py:533-546 | one bar per non-empty bucket with its label and `COUNT(*)`, no empty bar, buckets in ascending order, which is the order of their smallest values |
| Buckets.HistogramTotal | app.py:533-546 | the bars add up to the number of rows: no row lost or counted twice |
| Buckets.SizeHistogram | app.py:533-546 | one bar per non-empty size range with its label and row count, ranges in ascending order, adding up to the number of files |
| Buckets.TextHistogram | app.py:550-563 | one bar per non-empty length range with its label and row count, ranges in ascending order, adding up to the number of cached texts |
| Graph.TopEntities | app.py:650-657 | at most `max_nodes` distinct names over the threshold among the accepted labels, each a group of the rows with its file count and mentions, most files first; one over the threshold is left out only when the limit is reached by names with at least as many files |
| Graph.SelectNodes | app.py:659-672 | `entity_set` is exactly the top entities plus every key figure with entity rows of any label; `entity_info` covers exactly that set, with top-query values for top entities and all-rows values for forced key figures |
| Graph.MentionedIffKey | app.py:665-670 | the force-add query returns a row exactly when the name has an entity row |
| Graph.PutAll | app.py:692 | the dict comprehension has one entry per key, and the entry holds the weight of the key's last row |
| Graph.AddAbsent | app.py:693-695 | key-figure edges never overwrite: existing entries stay as they were and in place; each new key gets the weight of its first row |
| Graph.ThresholdEdges | app.py:675-679 | the threshold edges, a permutation of the rows with weight at least `min_weight`, heaviest first |
| Graph.VipEdges | app.py:682-690 | a permutation of the rows with a key figure at either end and at least one shared file, heaviest first |
| Graph.AllEdges | app.py:675-695 | every key once; the keys are those of the threshold and key-figure edges; threshold entries come first, with the threshold query's weight; the other keys have the key-figure weight |
| Graph.ThresholdWeightsKept | app.py:675-695 | with one row per pair, every edge over the threshold is kept at its original weight |
| Graph.DotSize | app.py:723 | between 8 and 50; below 50 exactly when the entity has fewer than 21 files, and then `8 + 2·files` |
| Graph.DotSizeMonotone | app.py:723 | more files never give a smaller dot |
| Graph.StyleOf | app.py:710-724 | Epstein's names get the green diamond of size 60, checked before key figures; key figures get a gold star whose size is the larger of 25 and the plain dot size (so between 25 and 50); everyone else gets their label's colour and the plain dot size |
| Graph.Emit | app.py:705-731 | the drawing lists every node once: exactly the shown ends of walked edges (both ends selected), each styled by `StyleOf`; its edges are exactly those with both ends shown, in order, and the counter equals their number |
| Graph.Draw | app.py:705-731 | every drawn edge has both ends selected and drawn, and no organisation is drawn while organisations are hidden, on top of what `Emit` promises |
| Graph.BuildGraph | app.py:642-731 | every drawn edge has both ends selected and drawn; a selected entity is drawn exactly when it is shown and is an end of a kept edge between selected entities; no organisation is drawn while organisations are hidden; `edge_count` equals the number of drawn edges |

## Left out

- Streamlit rendering (tabs, metrics, charts, expanders, buttons, `st.rerun`) and pandas frames are UI only. Query results are sequences of rows.
- SQLite plumbing is not modelled: the connection and WAL mode, cursors, commits and parameter binding. Each committed write is one step on the table.
- `LIKE` and `re.IGNORECASE` fold ASCII letters only; Unicode case folding is not modelled. Whitespace for `strip()`/`split()` is Python's `str.isspace`.
- The order among ties in `ORDER BY` is unspecified in SQLite, so no contract states it. The functions keep the earlier row first.
- The bare `entity_label` column in `GROUP BY normalized` comes from some row of the group in SQLite. The model takes the first row's label.
- The pyvis network, its physics settings, HTML saving and reading, and the graph cache file are a foreign library and file I/O. A drawing is the list of nodes and edges handed to it.
- Node titles are not modelled; the text shown on hover is display only.
- Appending keywords to the processor's keyword file and the unused `insert_point` inspection (app.py:819-852) are file I/O.
- The floating-point overview metrics (MB, millions of characters) are left out, and so is the "Total 'Trump' mentions" arithmetic (app.py:109), which uses `replace`/`length`.
- The sort of the category table by score (app.py:182) is left out. It is a pandas display sort and leaves the scores unchanged.
- The dataset option list, the keyword detail table and "View Text by ID" are left out; each is a single lookup query shown as is.
- `entity_cooccurrence` and `entities` are read-only inputs produced by external scripts that are not part of this model.
- Graph.BuildGraph: a forced key figure with no retained edge between selected entities is not drawn, because app.py:705-731 adds nodes only while walking edges. A key figure forced into the selected set can therefore be missing from the drawing.
- KeywordIndex.IndexContext: the window runs from 150 characters before the match start to 150 after the match end, so it spans 300 characters plus the keyword.
- The stored `char_count` column is not tied to the length of the text; "has text" for the indexer (`char_count > 0`) reads that stored value.
- FullTextSearch.StreamHits: the status-line updates are modelled as the list of counts shown, not as UI calls.

## Findings

| source | as written | input that shows it | evidently intended | confidence | as-written member | corrected member |
|---|---|---|---|---|---|---|
| app.py:470-476 | the search term is put into `LIKE '%term%'` unescaped, so `%` and `_` typed by the user act as wildcards | term `a_c` over a document whose text is `abc`: the row is returned, but `find` finds no `a_c`, so the snippet falls back to the unmarked first 400 characters | "Search term (case-insensitive)" returns documents in which the term literally occurs | not executed | FullTextSearch.SearchAsWrittenMatchesWildcard | FullTextSearch.SearchQuery |
