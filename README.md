# reddit-network-analysis: a verified model of the batch scripts

The repository is a set of Python batch scripts. They turn Reddit comment dumps into
cohorts, userlists, drift tables, statistics and subreddit graphs. Almost all of their
logic is counting over sequences of `(author, subreddit, created_utc)` records. This
project models that logic in Dafny and proves what each script promises. One Dafny
module models each script. Four small modules hold what several scripts share:

- `Base`: `Option` and `Result`.
- `Records`: a line of a JSONL file and the record it yields.
- `Text`: Python's `strip`, `split(sep)`, `split()`, `join`, and the name-list reader built from them.
- `StringOrder`: Python's string order and `sorted()` of a set of strings.
- `Paths`: the part of a path after its last `/`, and `os.path.splitext`.

A line of input is `Line(text, json)`. `json` is the decoded object, with one optional
field per key, or `None` when `json.loads` rejects the line (a blank line included).
Timestamps are integer seconds. Where the source loops and updates state, the model is a
`method` with the same loop, proved against a specification function. The
specification functions carry the lemmas. The overlap graph's `sid` table is a class with
the two fields the script mutates.

| module | script |
|---|---|
| `DriftPaths` | `scripts/compute_user_drift_paths.py` |
| `DriftBins` | `scripts/user_drift_paths.py` |
| `TransitionGraph` | `scripts/build_transition_graph.py` |
| `WindowedGraph` | `scripts/build_windowed_graph.py` and the identical `scripts/make_windowed_graph.py` |
| `OverlapGraph` | `scripts/make_overlap_graph.py` |
| `SeedCohort` | `scripts/filter_seed_cohort.py` |
| `SeedFilter` | `scripts/filter_seed.py` |
| `CohortFilter` | `scripts/filter_cohort.py` |
| `Userlists` | `scripts/build_userlists.py` |
| `UsersPerSub` | `scripts/compute_users_per_sub.py` |
| `CohortStats` | `scripts/compute_cohort_stats.py` |

`scripts/make_windowed_graph.py` is a line-for-line copy of `scripts/build_windowed_graph.py`, so the `WindowedGraph` rows below, which cite the latter, describe both.

Inputs that a script reads from disk are parameters of its model:

- the decoded lines of each file;
- the text of a userlist or seed file;
- the hash function of the windowed graph;
- the timestamp-to-month function of the cohort statistics.

Glob patterns are given already expanded. The outputs are values: the written lines, the
CSV text, the graph as maps from node and edge keys to attribute records, and the error
that stops a script.

## Model

| member | source | states |
|---|---|---|
| Records.AsEvent | scripts/compute_user_drift_paths.py:61-70 | a line yields a record exactly when it decodes and has `author`, `subreddit` and `created_utc`; the record carries those three values |
| Records.Events | scripts/compute_user_drift_paths.py:61-70 | a file of lines yields at most one record per line |
| Records.EventsMembers | scripts/compute_user_drift_paths.py:57-70 | a record is loaded exactly when some line yields it; blank, undecodable and incomplete lines are skipped |
| Records.EventsAppend | scripts/compute_user_drift_paths.py:58-60 | reading files one after another concatenates their records |
| Records.LoadRecords | scripts/compute_user_drift_paths.py:57-70 | the nested read loop over files and lines appends exactly the records of all lines, in order |
| Text.StripLeft | scripts/compute_user_drift_paths.py:43 | the result is a suffix of the input; exactly the leading whitespace is dropped |
| Text.StripRight | scripts/compute_user_drift_paths.py:43 | the result is a prefix of the input; exactly the trailing whitespace is dropped |
| Text.Strip | scripts/compute_user_drift_paths.py:43 | the result has no whitespace at either end |
| Text.StripTrimmed | scripts/build_userlists.py:54 | stripping a string that has no whitespace at either end leaves it unchanged |
| Text.SplitOn | scripts/compute_user_drift_paths.py:45 | a split has at least one piece |
| Text.SplitPiecesFree | scripts/compute_user_drift_paths.py:45 | no piece of a split contains the separator |
| Text.JoinSplit | scripts/compute_user_drift_paths.py:45 | joining the pieces of a split with the separator restores the string |
| Text.SplitJoin | scripts/filter_seed.py:81 | splitting a join of separator-free strings gives them back |
| Text.JoinTerminatedAppend | scripts/build_userlists.py:44-45 | writing two lists of lines one after the other writes their concatenation |
| Text.JoinTerminatedIsJoin | scripts/build_userlists.py:44-45 | writing each name followed by the separator equals joining the names with one empty name appended |
| Text.ParseNameList | scripts/compute_user_drift_paths.py:43-45 | every name of a parsed list is non-empty and has no whitespace at either end |
| Text.KeptStep | scripts/build_userlists.py:53-56 | one more line adds its stripped form exactly when that is not empty |
| Text.ParseJoin | scripts/filter_seed_cohort.py:44-45 | a list of plain names joined with the separator parses back to the same set |
| Text.ParseTerminated | scripts/build_userlists.py:53-56 | a file with one plain name per terminated line parses back to the same set |
| Text.WordLen | scripts/filter_cohort.py:37 | the word at the start of a string is the longest run without whitespace |
| Text.Tokens | scripts/filter_cohort.py:37 | every token of `str.split()` is a non-empty run without whitespace |
| Text.TokensWordThen | scripts/filter_cohort.py:37 | a word followed by whitespace or the end is the first token |
| Text.TokensJoin | scripts/filter_cohort.py:37 | words joined by any whitespace character split back into the same words |
| StringOrder.LessIrreflexive | scripts/filter_seed.py:81 | no string is below itself |
| StringOrder.LessTransitive | scripts/filter_seed.py:81 | the string order is transitive |
| StringOrder.LessTotal | scripts/filter_seed.py:81 | of two different strings one is below the other |
| StringOrder.LessAsymmetric | scripts/filter_seed.py:81 | the string order is asymmetric |
| StringOrder.StrictlySortedDistinct | scripts/filter_seed.py:81 | a strictly ascending list has no repeats |
| StringOrder.LeastExists | scripts/filter_seed.py:81 | every non-empty set of strings has a least element |
| StringOrder.LeastUnique | scripts/filter_seed.py:81 | the least element is unique |
| StringOrder.Least | scripts/filter_seed.py:81 | the least element is in the set and below every other element |
| StringOrder.SortedList | scripts/filter_seed.py:81 | `sorted(s)` is strictly ascending, holds exactly the elements of `s`, and has one entry per element |
| StringOrder.SortedListDistinct | scripts/filter_seed.py:81 | `sorted(s)` of a set has no duplicates |
| StringOrder.SortedLinesSplit | scripts/filter_seed.py:81 | a newline-joined sorted userlist split at newlines gives every name once, ascending, when no name holds a newline |
| StringOrder.SortedLinesTokens | scripts/filter_cohort.py:37 | a userlist of names without whitespace reads back through `split()` as its sorted names and as the same set |
| Paths.BasenameSuffix | scripts/compute_cohort_stats.py:45 | the base name is the part of the path after its last `/` and holds no `/` |
| Paths.Basename | scripts/compute_cohort_stats.py:45 | `os.path.basename`: the result holds no `/` and is no longer than the path |
| Paths.BasenamePlain | scripts/compute_cohort_stats.py:45 | a name without `/` is its own base name |
| Paths.BasenameAfterSlash | scripts/compute_cohort_stats.py:45 | whatever precedes the last `/` is dropped |
| Paths.LastDot | scripts/compute_cohort_stats.py:45 | the position of the last dot, or none when there is no dot |
| Paths.StemOf | scripts/compute_cohort_stats.py:45 | `os.path.splitext(b)[0]`: a prefix of `b`, and what it cuts off starts with a dot |
| Paths.StemExtension | scripts/compute_cohort_stats.py:45 | `splitext` cuts off nothing, or a dot followed by no other dot; a name of leading dots keeps its dots |
| Paths.LastDotAt | scripts/compute_cohort_stats.py:45 | the dot before a dot-free extension is the last dot |
| Paths.StemDropsExtension | scripts/compute_cohort_stats.py:45 | a stem that is not all dots loses exactly its last extension |
| DriftPaths.SeedSet | scripts/compute_user_drift_paths.py:42-45 | the seed list is the stripped non-empty lines of the seed file, or else the stripped non-empty pieces of the comma list |
| DriftPaths.FirstSeed | scripts/compute_user_drift_paths.py:79-83 | an author has a T0 exactly when they have a seed comment; T0 is one of their seed comments, at the earliest timestamp of all of them |
| DriftPaths.SeedTable | scripts/compute_user_drift_paths.py:79-83 | `seed_df` has one entry per seed poster and no other; each entry is a seed comment of that author at their earliest seed timestamp |
| DriftPaths.PreEvents | scripts/compute_user_drift_paths.py:89-90 | every pre-T0 comment is by a seed poster and strictly before their T0 |
| DriftPaths.PreEventsMember | scripts/compute_user_drift_paths.py:89-90 | a comment is pre-T0 exactly when it is loaded, its author is a seed poster, and it is strictly before that author's T0 |
| DriftPaths.CountPositive | scripts/compute_user_drift_paths.py:92-95 | a group's size is positive exactly when the group has a comment |
| DriftPaths.MinTs | scripts/compute_user_drift_paths.py:93 | `first_ts_here` is the timestamp of a comment of the group and no later than any other |
| DriftPaths.GroupSubsCount | scripts/compute_user_drift_paths.py:92-95 | an author's pre-T0 subreddits are exactly those where their group is non-empty |
| DriftPaths.RelDaysBounds | scripts/compute_user_drift_paths.py:105 | `rel_days` is non-negative before T0 and is the number of complete days in the gap |
| DriftPaths.RelDays | scripts/compute_user_drift_paths.py:105 | `.dt.days` of the gap is its floor in whole days: `d * 86400 <= t0 - first < (d + 1) * 86400` |
| DriftPaths.GroupAuthorsPosters | scripts/compute_user_drift_paths.py:89-90 | the authors of pre-T0 comments are seed posters |
| DriftPaths.T0Rows | scripts/compute_user_drift_paths.py:109-115 | one T0 row per seed poster and no other, each with distinct authors and the poster's T0 |
| DriftPaths.T0RowsFacts | scripts/compute_user_drift_paths.py:109-115 | the T0 rows built over the sorted seed posters have one row per poster with distinct authors |
| DriftPaths.Run | scripts/compute_user_drift_paths.py:42-118 | an empty seed list stops first, then an empty file list, then no seed poster; otherwise the result is the table of the loaded records |
| DriftPaths.Paths | scripts/compute_user_drift_paths.py:85-118 | the script stops with no seed poster exactly when no loaded comment is in a seed subreddit; otherwise `out` is the drift table, which is never empty |
| DriftPaths.AuthorRowsKeyCount | scripts/compute_user_drift_paths.py:92-101 | one author's rows hold each group that passes the threshold exactly once |
| DriftPaths.PreRowsOfKeyCount | scripts/compute_user_drift_paths.py:92-101 | the grouped rows hold each group of a listed author that passes the threshold exactly once |
| DriftPaths.PreRowsExact | scripts/compute_user_drift_paths.py:92-101 | each `(author, subreddit)` group appears exactly once when its size is at least 1 and at least the threshold, and otherwise not at all |
| DriftPaths.PreRows | scripts/compute_user_drift_paths.py:92-106 | the definition of `agg`: one row per kept pre-T0 group, ordered by author and then subreddit; its properties are the lemmas `DriftPaths.PreRowsExact` and `DriftPaths.PreRowFacts` |
| DriftPaths.AuthorRowsMember | scripts/compute_user_drift_paths.py:92-101 | each row of an author is the grouped row of one of their kept subreddits |
| DriftPaths.PreRowsOfMember | scripts/compute_user_drift_paths.py:92-101 | each grouped row belongs to a non-empty, kept group of a seed poster |
| DriftPaths.PreRowFacts | scripts/compute_user_drift_paths.py:89-106 | a pre-T0 row names a seed poster and a non-seed subreddit; `comment_count` is the group's size, at least 1 and at least the threshold; `first_ts_here` is the earliest comment of the group and lies before T0; `rel_days` is its whole days to T0 and is non-negative |
| DriftPaths.PreNotSeed | scripts/compute_user_drift_paths.py:89-90 | a comment before its author's T0 is never in a seed subreddit |
| DriftPaths.T0RowsExact | scripts/compute_user_drift_paths.py:109-112 | every seed poster has exactly one T0 row: their seed subreddit and T0, with count 1 and `rel_days` 0 |
| DriftPaths.OutputAuthors | scripts/compute_user_drift_paths.py:118 | the authors of the output are exactly the seed posters |
| DriftPaths.Output | scripts/compute_user_drift_paths.py:118 | `out` holds at least one row per seed poster, and its last `len(seed_df)` rows are T0 rows: seed posters with count 1 and `rel_days` 0 |
| DriftPaths.KeyCountMember | scripts/compute_user_drift_paths.py:118 | a key that is counted has a row |
| DriftPaths.PreRowExists | scripts/compute_user_drift_paths.py:98-100 | a group that passes the threshold has a row |
| DriftPaths.RelDaysZero | scripts/compute_user_drift_paths.py:105 | a gap shorter than a day gives `rel_days` 0 |
| DriftPaths.PreRowStartsAtEarliest | scripts/compute_user_drift_paths.py:93 | a group's row starts at the group's earliest comment |
| DriftPaths.SameDayPreRow | scripts/compute_user_drift_paths.py:104-112 | a subreddit first used less than a day before T0 has a pre-T0 row with `rel_days` 0, the same value as the T0 row |
| DriftBins.Index | scripts/user_drift_paths.py:130 | each label has its position in the declared label list |
| DriftBins.Bin | scripts/user_drift_paths.py:128-131 | a value gets a bucket exactly when it lies in `(-1, 1e9]`, and the bucket is the right-closed interval that holds it |
| DriftBins.BinOfInterval | scripts/user_drift_paths.py:128-131 | a value in bucket `i`'s interval gets bucket `i`'s label, so the buckets do not overlap |
| DriftBins.LabelRowsKeyCount | scripts/user_drift_paths.py:133-136 | one bucket's rows hold each of its subreddits exactly once |
| DriftBins.BucketKeyCount | scripts/user_drift_paths.py:133-136 | one bucket's rows hold each subreddit observed in it exactly once, and nothing of another bucket |
| DriftBins.TableOfKeyCount | scripts/user_drift_paths.py:133-136 | the table over a list of buckets holds each observed `(bucket, subreddit)` once per occurrence of the bucket in the list |
| DriftBins.BinTableExact | scripts/user_drift_paths.py:133-136 | each `(bucket, subreddit)` reached by a row with positive `rel_days` has exactly one line, and no other line exists |
| DriftBins.LabelRowsMember | scripts/user_drift_paths.py:133-137 | each line of a bucket counts that bucket's distinct authors of its subreddit |
| DriftBins.TableOfMember | scripts/user_drift_paths.py:133-137 | each line counts the distinct authors of its group, which is observed |
| DriftBins.BinRowFacts | scripts/user_drift_paths.py:133-137 | `n_users` is the number of distinct authors of the group, at least 1, and the percentage's denominator is the number of seed posters |
| DriftBins.BinUsersBound | scripts/user_drift_paths.py:135-137 | the authors counted in a bucket are seed posters, so `n_users` is at most `len(seed_df)` and `pct_of_seed_posters` at most 1 |
| DriftBins.T0RowsNotBinned | scripts/user_drift_paths.py:133 | the T0 rows never reach a bucket, because their `rel_days` is 0 |
| DriftBins.UnfilteredRows | scripts/user_drift_paths.py:102-110 | without a visit filter every non-empty pre-T0 group has exactly one row |
| DriftBins.BinTable | scripts/user_drift_paths.py:133-136 | the definition of `bin_df` with `rel_days` kept: the observed `(bucket, subreddit)` groups in bucket order, then subreddit order, each with its distinct authors; its properties are the lemmas `DriftBins.BinTableExact` and `DriftBins.BinRowFacts` |
| DriftBins.FirstUndefined | scripts/user_drift_paths.py:133 | `DataFrame.query` resolves bare names only among the frame's columns: the result is none exactly when every name is a column, otherwise the first name that is not |
| DriftBins.BinStepOf | scripts/user_drift_paths.py:127-137 | the step runs only on request and for a non-empty `out`; it stops exactly when a name of the query is missing from the frame's columns, naming that column, and otherwise gives the bucket table |
| DriftBins.BinsAsWritten | scripts/user_drift_paths.py:127-137 | with the frame `author`, `subreddit`, `bin` as written, every requested step on a non-empty `out` stops on the undefined name `rel_days` |
| DriftBins.BinsCorrected | scripts/user_drift_paths.py:127-137 | with `rel_days` kept in the frame, every requested step on a non-empty `out` gives the bucket table |
| DriftBins.Drift | scripts/user_drift_paths.py:89-137 | as written: the script stops exactly when there is no seed poster; otherwise it writes the drift table and then runs the `--bins` step of `DriftBins.BinsAsWritten` |
| DriftBins.DriftCorrected | scripts/user_drift_paths.py:89-137 | the same with the corrected `--bins` step of `DriftBins.BinsCorrected` |
| DriftBins.BinsAsWrittenAlwaysCrash | scripts/user_drift_paths.py:127-133 | as written, a run with `--bins` reaches the step exactly when some comment is in a seed subreddit, and then always stops on the undefined name `rel_days` |
| DriftBins.BinsCorrectedProduceTable | scripts/user_drift_paths.py:127-137 | the corrected run succeeds exactly when the run as written does, writes the same drift table, and with `--bins` adds the bucket table of it |
| DriftBins.Run | scripts/user_drift_paths.py:44-137 | an empty seed list stops first, then an empty file list; otherwise the run is `DriftBins.Drift` as written: the drift table without a visit filter, and with `--bins` the `rel_days` failure |
| TransitionGraph.CheckColumns | scripts/build_transition_graph.py:50-53 | the check passes exactly when `first_ts_here` and all four required columns exist; otherwise the date column fails first, then the set of missing columns, which is not empty |
| TransitionGraph.RowLeqTransitive | scripts/build_transition_graph.py:56 | the sort order (author ascending, `rel_days` descending) is transitive |
| TransitionGraph.RowLeqTotal | scripts/build_transition_graph.py:56 | any two rows are comparable in the sort order |
| TransitionGraph.Insert | scripts/build_transition_graph.py:56 | inserting into sorted rows keeps them sorted and adds exactly the one row |
| TransitionGraph.SortRows | scripts/build_transition_graph.py:56 | the sorted table is in sort order and a permutation of the input |
| TransitionGraph.SortRowsMember | scripts/build_transition_graph.py:56 | sorting keeps exactly the rows of the input |
| TransitionGraph.InsertWithKey | scripts/build_transition_graph.py:56 | insertion places a row after the rows of the same author and `rel_days`, and changes nothing else among them |
| TransitionGraph.SortRowsStable | scripts/build_transition_graph.py:56 | the sort is stable: rows of one author with equal `rel_days` keep their input order, as pandas' sort on two columns does |
| TransitionGraph.AuthorsMember | scripts/build_transition_graph.py:64 | the groups are exactly the authors of the table |
| TransitionGraph.AuthorsDistinct | scripts/build_transition_graph.py:64 | no author has two groups |
| TransitionGraph.AuthorsAscending | scripts/build_transition_graph.py:56-64 | on the sorted table the groups come in ascending author order |
| TransitionGraph.RowsOf | scripts/build_transition_graph.py:64-66 | a group's rows all belong to its author |
| TransitionGraph.RowsOfMember | scripts/build_transition_graph.py:64-66 | a group holds exactly its author's rows |
| TransitionGraph.RowsOfSorted | scripts/build_transition_graph.py:56-66 | a group of sorted rows is sorted |
| TransitionGraph.RowsOfDescending | scripts/build_transition_graph.py:56-66 | each author's path runs from the most days before T0 to the fewest |
| TransitionGraph.Subreddits | scripts/build_transition_graph.py:66 | the path lists the subreddit of each of the group's rows, in order |
| TransitionGraph.Groups | scripts/build_transition_graph.py:64-66 | one group per author, in order of first appearance, with that author's path |
| TransitionGraph.GroupsFacts | scripts/build_transition_graph.py:64-66 | groups belong to different authors and no path is empty |
| TransitionGraph.GroupVisits | scripts/build_transition_graph.py:64-69 | an author's path visits a subreddit exactly when the author has a row there |
| TransitionGraph.AddAllFacts | scripts/build_transition_graph.py:68-69 | adding an author under each key of a list creates exactly those keys and adds the author to exactly those sets |
| TransitionGraph.Pairs | scripts/build_transition_graph.py:74 | a path has one step fewer than subreddits, and none when empty |
| TransitionGraph.PairsAt | scripts/build_transition_graph.py:74 | step `k` goes from subreddit `k` to subreddit `k + 1` |
| TransitionGraph.PairsMember | scripts/build_transition_graph.py:74 | both ends of a step are on the path |
| TransitionGraph.CollectFacts | scripts/build_transition_graph.py:59-76 | a `defaultdict(set)` key exists exactly when some author registers it, and holds exactly the authors who do |
| TransitionGraph.TallyFacts | scripts/build_transition_graph.py:60-76 | a counter key is positive exactly when some author registers it |
| TransitionGraph.CollectAtMostTally | scripts/build_transition_graph.py:75-76 | a key has no more authors than counts |
| TransitionGraph.AddVisits | scripts/build_transition_graph.py:68-69 | the node loop adds the author under each subreddit of their path |
| TransitionGraph.CountFirst | scripts/build_transition_graph.py:71-72 | a non-empty path adds one first entry for its first subreddit, an empty one nothing |
| TransitionGraph.AddSteps | scripts/build_transition_graph.py:74-76 | the step loop registers the author under each step and counts each step once per occurrence |
| TransitionGraph.AccumulatorsStep | scripts/build_transition_graph.py:64-76 | one more author extends each accumulator by that author's path |
| TransitionGraph.Aggregate | scripts/build_transition_graph.py:59-76 | the per-author loop leaves the four accumulators equal to their specifications over all groups |
| TransitionGraph.NodeUsersFacts | scripts/build_transition_graph.py:67-69 | `node_users[c]` holds exactly the authors whose path visits `c`; its keys are the visited subreddits |
| TransitionGraph.EdgeUsersFacts | scripts/build_transition_graph.py:74-75 | `edge_users[e]` holds exactly the authors whose path takes step `e` |
| TransitionGraph.TransFacts | scripts/build_transition_graph.py:74-76 | `edge_trans[e]` is positive exactly for the steps some path takes |
| TransitionGraph.EdgeUsersAtMostTrans | scripts/build_transition_graph.py:75-76 | `weight_users <= weight_transitions` for every step |
| TransitionGraph.EdgeUsersWithinNodes | scripts/build_transition_graph.py:74-75 | a user of step `(x, y)` entered both `x` and `y` |
| TransitionGraph.NewAuthorAbsent | scripts/build_transition_graph.py:64-69 | a later author is among no earlier author's users |
| TransitionGraph.AuthorsDifferPrefix | scripts/build_transition_graph.py:64 | dropping the last group keeps the authors different |
| TransitionGraph.FirstEntriesAtMostUsers | scripts/build_transition_graph.py:70-72 | with one group per author, `first_entries[c] <= users_total[c]` |
| TransitionGraph.FirstEntriesTotal | scripts/build_transition_graph.py:70-72 | `first_entries` gains exactly one count per non-empty path |
| TransitionGraph.TransTotal | scripts/build_transition_graph.py:74-76 | the total of `edge_trans` is the sum of `len(path) - 1` over the paths; a one-row path adds none |
| TransitionGraph.AddNodes | scripts/build_transition_graph.py:81-84 | the node loop gives each entered subreddit its user count and first-entry count |
| TransitionGraph.WithEndsStep | scripts/build_transition_graph.py:86-89 | one more edge adds its two endpoints as nodes when they are missing |
| TransitionGraph.AddEdges | scripts/build_transition_graph.py:86-89 | the edge loop adds every step with its user and transition counts, creating missing endpoints |
| TransitionGraph.SetWeights | scripts/build_transition_graph.py:92-93 | every edge gets the weight the mode selects |
| TransitionGraph.BuildGraph | scripts/build_transition_graph.py:79-93 | the three graph loops build the graph of the groups |
| TransitionGraph.GraphOf | scripts/build_transition_graph.py:79-93 | the definition of the graph of a list of groups: nodes from the node and first-entry counts plus every edge endpoint, edges with both counts and the selected weight; its properties are the lemmas `TransitionGraph.GraphNodes` and `TransitionGraph.GraphEdges` |
| TransitionGraph.Run | scripts/build_transition_graph.py:50-93 | a failed column check stops with its failure; otherwise the graph of the sorted table's groups |
| TransitionGraph.NodeUsersOfTable | scripts/build_transition_graph.py:67-69 | `users_total[c]` counts the distinct authors with a row in `c`; the keys are the subreddits of the table |
| TransitionGraph.StartedAll | scripts/build_transition_graph.py:71-72 | groups whose paths are all non-empty have all started |
| TransitionGraph.GroupsCount | scripts/build_transition_graph.py:64 | there is one group per author of the table |
| TransitionGraph.FirstEntriesOfTable | scripts/build_transition_graph.py:70-72 | the first entries sum to the number of authors |
| TransitionGraph.EndsAreNodes | scripts/build_transition_graph.py:81-89 | every edge endpoint is an entered subreddit |
| TransitionGraph.GraphNodes | scripts/build_transition_graph.py:81-89 | the nodes are exactly the subreddits of the table, none bare; a node counts the authors who entered it and those for whom it came first, which are no more |
| TransitionGraph.GraphEdges | scripts/build_transition_graph.py:86-93 | the edges are exactly the steps some path takes; each has `1 <= weight_users <= weight_transitions`, no more users than either endpoint, and the weight the mode selects |
| TransitionGraph.TotalLenGroups | scripts/build_transition_graph.py:64-66 | the paths together hold every row once |
| TransitionGraph.TransOfTable | scripts/build_transition_graph.py:74-76 | summed over the steps, `weight_transitions` is the number of rows minus the number of authors |
| WindowedGraph.Parse | scripts/build_windowed_graph.py:36-38 | a line gives a row exactly when it decodes and has all three keys; otherwise the error names the line, and a missing key error names one of the three keys |
| WindowedGraph.Load | scripts/build_windowed_graph.py:34-38 | the read loop succeeds exactly when every line gives a row, with one row per line; otherwise it stops at the first failing line |
| WindowedGraph.Anonymise | scripts/build_windowed_graph.py:43 | each row keeps its subreddit and time and gets the hash of its author |
| WindowedGraph.KeyLeqTransitive | scripts/build_windowed_graph.py:44 | the `(uid, ts)` order is transitive |
| WindowedGraph.KeyLeqTotal | scripts/build_windowed_graph.py:44 | any two rows are comparable by `(uid, ts)` |
| WindowedGraph.Insert | scripts/build_windowed_graph.py:44 | inserting into sorted rows keeps them sorted and adds exactly the one row |
| WindowedGraph.SortByKey | scripts/build_windowed_graph.py:44 | the sorted rows are ordered by `(uid, ts)` and a permutation of the input |
| WindowedGraph.InsertWithKey | scripts/build_windowed_graph.py:44 | insertion puts a row ahead of the rows that share its key |
| WindowedGraph.SortByKeyStable | scripts/build_windowed_graph.py:44 | the sort is stable: rows sharing a key keep their input order |
| WindowedGraph.WeightsAdd | scripts/build_windowed_graph.py:52-53 | one more counted pair sets the weight to the old weight plus 1, or to 1 for a new edge |
| WindowedGraph.PairsUpToNext | scripts/build_windowed_graph.py:49-53 | one more adjacent pair counts its step when both rows belong to one user, and nothing otherwise |
| WindowedGraph.CountPairs | scripts/build_windowed_graph.py:48-53 | the pair loop's weights are, for each step, the number of adjacent same-user pairs taking it |
| WindowedGraph.PairsUpToMember | scripts/build_windowed_graph.py:49-51 | a step is counted among the first rows exactly when an adjacent same-user pair there takes it |
| WindowedGraph.SamePairsMember | scripts/build_windowed_graph.py:49-51 | an edge exists exactly when some adjacent same-user pair takes it; a repeated subreddit gives a self-loop |
| WindowedGraph.WeightsPositive | scripts/build_windowed_graph.py:52-53 | every saved weight is at least 1 and is the number of pairs taking that step |
| WindowedGraph.PairsSplit | scripts/build_windowed_graph.py:49-51 | every adjacent pair is either counted or straddles two users |
| WindowedGraph.NextUidNew | scripts/build_windowed_graph.py:44 | in sorted rows a change of user brings a user not seen before |
| WindowedGraph.UidsUpToNext | scripts/build_windowed_graph.py:49 | one more row adds its user |
| WindowedGraph.BoundariesSorted | scripts/build_windowed_graph.py:44-51 | sorted rows have one user boundary fewer than users |
| WindowedGraph.UidsAnonymise | scripts/build_windowed_graph.py:43 | with an injective hash, the sorted rows have as many users as there are authors |
| WindowedGraph.TotalWeight | scripts/build_windowed_graph.py:49-53 | for a hash that keeps authors apart, the counted pairs (one per unit of edge weight) number the rows minus the distinct authors |
| WindowedGraph.Run | scripts/build_windowed_graph.py:34-55 | the script succeeds exactly when every line gives a row, and then saves the pair weights of the sorted anonymised rows; otherwise it stops at the first failing line |
| OverlapGraph.FirstSeen | scripts/make_overlap_graph.py:33-38 | the distinct names in order of first appearance, each once |
| OverlapGraph.FirstSeenSnoc | scripts/make_overlap_graph.py:35-37 | one more name is appended exactly when it is new |
| OverlapGraph.SubIds.constructor | scripts/make_overlap_graph.py:33 | both tables start empty |
| OverlapGraph.SubIds.Sid | scripts/make_overlap_graph.py:34-38 | `sid` returns the name's id with `id2sub[id] == name`; a known name changes nothing, a new name gets the next free id |
| OverlapGraph.SubIds.IdsCard | scripts/make_overlap_graph.py:36 | `len(sub2id) == len(id2sub)` |
| OverlapGraph.SubIds.IdsDistinct | scripts/make_overlap_graph.py:37 | no name has two ids |
| OverlapGraph.PostOf | scripts/make_overlap_graph.py:47-51 | an undecodable line adds nothing; a decoded line gives a post exactly when it has both keys; otherwise the missing key, `author` first |
| OverlapGraph.Posts | scripts/make_overlap_graph.py:43-51 | the read loop yields at most one post per line, or the first line's lookup error |
| OverlapGraph.PostsError | scripts/make_overlap_graph.py:43-51 | the read fails exactly when a decoded line lacks a key, with the first such line's error |
| OverlapGraph.PostsStep | scripts/make_overlap_graph.py:44-51 | one more line adds its post, if it has one |
| OverlapGraph.PostsSnoc | scripts/make_overlap_graph.py:51 | one more post extends the authors, the subreddits and its author's subreddits |
| OverlapGraph.SubsOfWithin | scripts/make_overlap_graph.py:51 | a user's subreddits are among the posts' subreddits |
| OverlapGraph.NoEntryNoSubs | scripts/make_overlap_graph.py:40 | a user without an entry has no posts |
| OverlapGraph.EntryStep | scripts/make_overlap_graph.py:51 | one more post adds its subreddit's id to one entry and leaves the others as they were |
| OverlapGraph.UsersStep | scripts/make_overlap_graph.py:51 | the users of the index stay the authors in order of first appearance |
| OverlapGraph.EntriesStep | scripts/make_overlap_graph.py:51 | each entry stays the ids of its user's subreddits |
| OverlapGraph.IndexesStep | scripts/make_overlap_graph.py:51 | one more post keeps the index in step with the posts |
| OverlapGraph.IndexPost | scripts/make_overlap_graph.py:51 | `sid` of the post's subreddit, then the add, keep the id table first-seen and the index exact |
| OverlapGraph.Index | scripts/make_overlap_graph.py:43-51 | the read loop fails exactly when the posts fail; otherwise ids are in first-seen order and `user_subs[a]` is the set of ids of the subreddits `a` commented in |
| OverlapGraph.PostsErrorStays | scripts/make_overlap_graph.py:51 | once a lookup has failed, later lines change nothing |
| OverlapGraph.IndexesUnique | scripts/make_overlap_graph.py:40-51 | the index is determined by the posts |
| OverlapGraph.Values | scripts/make_overlap_graph.py:60 | `user_subs.values()` has one set per user |
| OverlapGraph.Heads | scripts/make_overlap_graph.py:67 | the pairs of one element with each other element |
| OverlapGraph.Norm | scripts/make_overlap_graph.py:68-69 | the swap puts the smaller id first and keeps the pair |
| OverlapGraph.Normed | scripts/make_overlap_graph.py:67-69 | every combination is normalised, in order |
| OverlapGraph.HeadsPairs | scripts/make_overlap_graph.py:67-69 | the normalised pairs with one element are distinct and are exactly its pairs with the rest |
| OverlapGraph.CombinationsPairs | scripts/make_overlap_graph.py:61-69 | for distinct ids, the normalised combinations are every unordered pair exactly once |
| OverlapGraph.PairsSplit | scripts/make_overlap_graph.py:67 | the pairs of `{x} + rest` are the pairs with `x` and the pairs of `rest` |
| OverlapGraph.ListOf | scripts/make_overlap_graph.py:61 | `list(subs)` holds each id of the set once |
| OverlapGraph.FewIds | scripts/make_overlap_graph.py:64-65 | fewer than two ids give no pairs |
| OverlapGraph.CountSubs | scripts/make_overlap_graph.py:62-63 | each id of a user counts once in `sub_usercount` |
| OverlapGraph.CountCombinations | scripts/make_overlap_graph.py:67-71 | the combinations loop counts each normalised pair and each update |
| OverlapGraph.CountUser | scripts/make_overlap_graph.py:61-71 | one user adds each of their ids once and each unordered pair of their ids once |
| OverlapGraph.CountOverlaps | scripts/make_overlap_graph.py:56-71 | the counting loop builds both counters over all users, and `pair_updates` is the total of `edge_cnt` |
| OverlapGraph.SubTallyCount | scripts/make_overlap_graph.py:60-63 | `sub_usercount[s]` is the number of users whose set holds `s` |
| OverlapGraph.EdgeTallyCount | scripts/make_overlap_graph.py:64-70 | `edge_cnt[(a, b)]` is the number of users holding both ids when `a < b`, and 0 otherwise |
| OverlapGraph.OverlapBound | scripts/make_overlap_graph.py:82-85 | the overlap is at most either id's user count, so the union is at least the overlap |
| OverlapGraph.EdgeTallyIds | scripts/make_overlap_graph.py:68-70 | counted pairs have the smaller id first and ids some user holds |
| OverlapGraph.ValuesAt | scripts/make_overlap_graph.py:51 | a user's set holds an id exactly when the user commented in that id's subreddit |
| OverlapGraph.CommentersAreUsers | scripts/make_overlap_graph.py:51 | every commenter has an entry |
| OverlapGraph.PositionsCard | scripts/make_overlap_graph.py:60 | distinct users: as many users as positions |
| OverlapGraph.PickedCard | scripts/make_overlap_graph.py:60-63 | the users picked by membership are as many as the commenters |
| OverlapGraph.HoldersAreCommenters | scripts/make_overlap_graph.py:60-63 | the users holding an id are as many as that subreddit's commenters |
| OverlapGraph.SharersAreCommenters | scripts/make_overlap_graph.py:64-70 | the users holding two ids are as many as the users who commented in both subreddits |
| OverlapGraph.KeyInjective | scripts/make_overlap_graph.py:89 | distinct normalised pairs name distinct edges |
| OverlapGraph.KeyFresh | scripts/make_overlap_graph.py:82-92 | a pair not yet filtered has no edge yet |
| OverlapGraph.FilterStep | scripts/make_overlap_graph.py:82-92 | one pair of the filter loop adds an edge exactly when it passes |
| OverlapGraph.FilterSkip | scripts/make_overlap_graph.py:83-88 | a failing pair leaves the graph as it was |
| OverlapGraph.FilterKeep | scripts/make_overlap_graph.py:89-92 | a passing pair adds its edge |
| OverlapGraph.FilterPair | scripts/make_overlap_graph.py:82-92 | a pair becomes an edge with its overlap and union and `kept` grows by 1 exactly when both thresholds hold |
| OverlapGraph.Passes | scripts/make_overlap_graph.py:83-88 | the definition of the two thresholds: `overlap >= W_MIN`, and the Jaccard index is not below `J_MIN`, compared exactly as `overlap * jDen >= jNum * union` |
| OverlapGraph.FilterEdges | scripts/make_overlap_graph.py:80-92 | a counted pair is an edge exactly when it passes both thresholds, with its overlap and union; no other edge exists; `kept` is the edge count |
| OverlapGraph.ValuesIds | scripts/make_overlap_graph.py:51 | every id a user holds is an id of the table |
| OverlapGraph.CountedOf | scripts/make_overlap_graph.py:56-71 | the counters satisfy the filter's precondition |
| OverlapGraph.PairMeaning | scripts/make_overlap_graph.py:82-85 | a counted pair's overlap and union are those of its two subreddits' commenters |
| OverlapGraph.CommentedHasId | scripts/make_overlap_graph.py:51 | a subreddit somebody commented in has an id |
| OverlapGraph.CountersDescribe | scripts/make_overlap_graph.py:56-71 | the counters give, for every id pair, the overlap and union of the two subreddits |
| OverlapGraph.EdgesArePairs | scripts/make_overlap_graph.py:89 | every edge joins two different subreddits |
| OverlapGraph.FilterMeaning | scripts/make_overlap_graph.py:79-92 | the filtered graph is the overlap graph of the posts |
| OverlapGraph.OverlapGraphOf | scripts/make_overlap_graph.py:79-92 | the definition of the overlap graph of the posts: an edge joins two different subreddits exactly when their commenter sets share a user and pass both thresholds, carrying the overlap and the union; `kept` is the number of edges; its properties are the lemmas `OverlapGraph.FilterMeaning` and `OverlapGraph.PairOfNames` |
| OverlapGraph.OverlapSymmetric | scripts/make_overlap_graph.py:85 | overlap and union do not depend on the order of the two subreddits |
| OverlapGraph.PairOfNames | scripts/make_overlap_graph.py:82-92 | two subreddits are joined exactly when they share a user and pass the thresholds, with the overlap as weight and the Jaccard fraction |
| OverlapGraph.EdgeHasNames | scripts/make_overlap_graph.py:82-92 | an edge joins two subreddits with a positive, passing overlap |
| OverlapGraph.PairEq | scripts/make_overlap_graph.py:89 | two two-element sets agree in one order or the other |
| OverlapGraph.NamesHaveEdge | scripts/make_overlap_graph.py:82-92 | two subreddits that share a user are joined exactly when they pass the thresholds |
| OverlapGraph.Run | scripts/make_overlap_graph.py:33-92 | the read fails exactly when a decoded line lacks a key, with that error; otherwise the edges and `kept` are the overlap graph of the posts |
| SeedCohort.NameList | scripts/filter_seed_cohort.py:44-45 | every seed or bad-user name is non-empty and has no whitespace at either end |
| SeedCohort.NameListJoin | scripts/filter_seed_cohort.py:44-45 | a comma list of plain names parses back to the same set |
| SeedCohort.OutOf | scripts/filter_seed_cohort.py:86-92 | a written object carries exactly the input's `author`, `subreddit` and `created_utc` |
| SeedCohort.SkippedLines | scripts/filter_seed_cohort.py:75-81 | an undecodable line or a comment by an excluded user changes nothing |
| SeedCohort.Step | scripts/filter_seed_cohort.py:75-92 | one line adds at most one author and writes at most one line, and removes nothing |
| SeedCohort.ScanOf | scripts/filter_seed_cohort.py:68-92 | the scan writes at most one line per input line and collects at most one author per line |
| SeedCohort.ScanAuthors | scripts/filter_seed_cohort.py:84-85 | after every line, `authors` is the set of authors of the non-excluded seed comments so far |
| SeedCohort.WrittenLines | scripts/filter_seed_cohort.py:79-92 | a line is written exactly when it decodes, its author is not excluded, and it is a seed comment or its author had an earlier seed comment |
| SeedCohort.WrittenByAuthors | scripts/filter_seed_cohort.py:84-92 | every written comment is by a collected author |
| SeedCohort.OrderMatters | scripts/filter_seed_cohort.py:84-92 | a non-seed comment before its author's first seed comment is dropped, and the same comment after it is kept |
| SeedCohort.Filter | scripts/filter_seed_cohort.py:64-92 | the scan over all month files gives the specified authors and written lines; `line_ct` counts every line, undecodable ones included |
| SeedCohort.Userlist | scripts/filter_seed_cohort.py:98 | the userlist fails exactly when a collected author is `None` |
| SeedCohort.UserlistLines | scripts/filter_seed_cohort.py:98 | the userlist split at newlines is every collected author once, ascending |
| SeedCohort.NamesCard | scripts/filter_seed_cohort.py:98 | without `None`, the userlist has one line per collected author |
| SeedCohort.SomeCard | scripts/filter_seed_cohort.py:85 | wrapping names keeps their number |
| SeedCohort.Run | scripts/filter_seed_cohort.py:44-98 | the parsed lists, the scan and the userlist together |
| SeedFilter.Examined | scripts/filter_seed.py:52-61 | the examined lines are a prefix of the input |
| SeedFilter.ExaminedCount | scripts/filter_seed.py:36-61 | `--max-lines 0` examines every line; a positive limit `N` examines at most `N - 1` lines |
| SeedFilter.SeedCounts | scripts/filter_seed.py:71-73 | `matcher_cnt` is the number of lines written, and `len(authors) <= matcher_cnt` |
| SeedFilter.SeedCopies | scripts/filter_seed.py:63-73 | exactly the decoded seed comments by non-excluded authors are copied, verbatim |
| SeedFilter.SeedAuthors | scripts/filter_seed.py:72 | `authors` is the set of authors of the copied lines |
| SeedFilter.SeedFailureStays | scripts/filter_seed.py:69 | once the pass has failed, later lines change nothing |
| SeedFilter.SeedFails | scripts/filter_seed.py:63-69 | the pass fails exactly when a seed comment lacks `author`, at the first such line |
| SeedFilter.ScanSeed | scripts/filter_seed.py:63-73 | the definition of the pass over the examined lines: undecodable lines and other subreddits are skipped, a seed comment without `author` stops it with its line number, bots are skipped, and each other seed comment is copied, its author collected and `matcher_cnt` incremented; its properties are the lemmas `SeedFilter.SeedCounts`, `SeedFilter.SeedCopies` and `SeedFilter.SeedFails` |
| SeedFilter.OtherLines | scripts/filter_seed.py:63-68 | an undecodable line or a comment of another subreddit changes nothing |
| SeedFilter.Run | scripts/filter_seed.py:42-81 | exactly the examined lines go through the seed predicate; the counters, the copied lines and the sorted userlist follow |
| CohortFilter.Users | scripts/filter_cohort.py:37 | every listed user is a non-empty run without whitespace |
| CohortFilter.UsersOfUserlist | scripts/filter_cohort.py:37 | a userlist written by the seed filters reads back as the same author set |
| CohortFilter.OutOf | scripts/filter_cohort.py:59-73 | a line is written exactly when its author is listed and not excluded and it has the fields; the object holds `author`, `subreddit`, `created_utc`, and `body` only on request; a missing key fails with its name |
| CohortFilter.CohortCount | scripts/filter_cohort.py:64-65 | one object is written per kept line |
| CohortFilter.CohortWritten | scripts/filter_cohort.py:64-73 | each object written is the projection of a kept line, and conversely |
| CohortFilter.CohortFails | scripts/filter_cohort.py:59-69 | the pass fails exactly when some line's lookup fails, with the first such line's error |
| CohortFilter.ScanCohort | scripts/filter_cohort.py:59-73 | the pass writes at most one object per examined line |
| CohortFilter.CohortFailureStays | scripts/filter_cohort.py:64-69 | once the pass has failed, later lines change nothing |
| CohortFilter.Run | scripts/filter_cohort.py:37-73 | exactly the examined lines are filtered; `match_ct` is the number of objects written |
| Userlists.AuthorsMembers | scripts/build_userlists.py:32-40 | a name is collected exactly when some decoded line carries it as `author` |
| Userlists.SkippedLine | scripts/build_userlists.py:35-39 | a line that does not decode or has no `author` adds nothing |
| Userlists.CollectAuthors | scripts/build_userlists.py:32-40 | the first loop collects exactly those names |
| Userlists.WriteLines | scripts/build_userlists.py:43-45 | the write loop writes each name followed by a newline, in order |
| Userlists.ListFileLines | scripts/build_userlists.py:43-45 | the file's lines are the names ascending, each once, then the empty rest |
| Userlists.FileNames | scripts/build_userlists.py:53-56 | the names of an existing file are non-empty and unpadded |
| Userlists.AllUsersMembers | scripts/build_userlists.py:49-56 | the merged set is the cohort's names together with every name of every existing file |
| Userlists.CurrentKept | scripts/build_userlists.py:49 | `users_current` is a subset of `all_users` |
| Userlists.StripFree | scripts/build_userlists.py:54 | stripping a line without a newline leaves none |
| Userlists.FileNamesAreListNames | scripts/build_userlists.py:53-56 | every name read from a file can be written back unchanged |
| Userlists.AllUsersAreListNames | scripts/build_userlists.py:49-56 | every merged name can be written back unchanged when the cohort's names can |
| Userlists.ListFileRoundTrip | scripts/build_userlists.py:53-61 | a written list file read back as an existing file gives its names |
| Userlists.MergeIdempotent | scripts/build_userlists.py:49-61 | feeding the merged file back in as one more existing list leaves the merged set unchanged |
| Userlists.AddFile | scripts/build_userlists.py:52-56 | the inner loop adds the stripped non-empty lines of one file |
| Userlists.MergeExisting | scripts/build_userlists.py:49-56 | the second loop builds the merged set |
| Userlists.Run | scripts/build_userlists.py:32-61 | the cohort file of names, the merged set, which contains them, and the merged file |
| UsersPerSub.FindMonth | scripts/compute_users_per_sub.py:19-21 | the search from a position gives the leftmost match at or after it, or none |
| UsersPerSub.MonthFrom | scripts/compute_users_per_sub.py:19-22 | `unknown` exactly when the base name has no `YYYY-MM`; otherwise the leftmost match in the base name |
| UsersPerSub.MonthFromDirectory | scripts/compute_users_per_sub.py:21 | directory components are never searched |
| UsersPerSub.MonthShape | scripts/compute_users_per_sub.py:19-22 | the label is `unknown` or of the form `DDDD-DD` |
| UsersPerSub.AuthorsOnSnoc | scripts/compute_users_per_sub.py:40 | one more line adds its author to its subreddit |
| UsersPerSub.TallyOrder | scripts/compute_users_per_sub.py:40-44 | the dict's keys come in insertion order, each once |
| UsersPerSub.TallyKey | scripts/compute_users_per_sub.py:38-42 | a subreddit has an entry exactly when some decoded line has it as `subreddit` |
| UsersPerSub.TallyUsers | scripts/compute_users_per_sub.py:38-42 | each entry holds exactly the authors seen with its subreddit |
| UsersPerSub.EntryWithoutAuthor | scripts/compute_users_per_sub.py:40 | a comment with a subreddit but no author opens an empty entry |
| UsersPerSub.CountFile | scripts/compute_users_per_sub.py:36-42 | the line loop builds the specified dict |
| UsersPerSub.FileRows | scripts/compute_users_per_sub.py:44-45 | one row per dict entry |
| UsersPerSub.FileRowsTotals | scripts/compute_users_per_sub.py:28-45 | each row carries the file's month label and the number of distinct authors of its subreddit |
| UsersPerSub.FileRowsSubs | scripts/compute_users_per_sub.py:38-45 | the rows name each subreddit of a decoded line of the file, each exactly once |
| UsersPerSub.OneLineRows | scripts/compute_users_per_sub.py:38-45 | a one-comment file yields one row, counting its author if present |
| UsersPerSub.SameMonthTwoRows | scripts/compute_users_per_sub.py:26-45 | two files with the same month label each contribute their own row |
| UsersPerSub.EmptyRow | scripts/compute_users_per_sub.py:38-45 | a comment without an author gives a row with `users_total` 0 |
| UsersPerSub.AppendRows | scripts/compute_users_per_sub.py:44-45 | one file appends its rows |
| UsersPerSub.ShowNat | scripts/compute_users_per_sub.py:52 | a count is written as a non-empty run of digits |
| UsersPerSub.DigitChar | scripts/compute_users_per_sub.py:52 | each digit is written as its character |
| UsersPerSub.DigitValue | scripts/compute_users_per_sub.py:52 | a digit character reads back as a digit |
| UsersPerSub.ReadShow | scripts/compute_users_per_sub.py:52 | the count written reads back as the same count |
| UsersPerSub.RowLines | scripts/compute_users_per_sub.py:51-52 | one line per row, in order |
| UsersPerSub.RowLinesStep | scripts/compute_users_per_sub.py:51-52 | one more row appends its line |
| UsersPerSub.CsvLines | scripts/compute_users_per_sub.py:49-52 | the file's lines are the header and then exactly one line per row, in row order |
| UsersPerSub.WriteCsv | scripts/compute_users_per_sub.py:49-52 | the writing loop writes the header and each row's line |
| UsersPerSub.Run | scripts/compute_users_per_sub.py:25-52 | every file in turn contributes its rows, and the CSV lists them |
| CohortStats.CohortName | scripts/compute_cohort_stats.py:45 | the cohort name is `splitext(basename(path))[0]`: it holds no `/` and is no longer than the path |
| CohortStats.CohortNameOfFile | scripts/compute_cohort_stats.py:45 | every file `dir/stem.ext` with a dot-free extension and a stem not made only of dots is the cohort `stem`, whatever the directory |
| CohortStats.FileRecs | scripts/compute_cohort_stats.py:47-66 | a file yields at most one entry per line |
| CohortStats.FileRecsMembers | scripts/compute_cohort_stats.py:47-66 | the entries of a file are exactly those of its usable lines, tagged with the file's cohort and the comment's month |
| CohortStats.FileNoRecs | scripts/compute_cohort_stats.py:48-57 | a file yields no entry exactly when none of its lines is usable |
| CohortStats.NoRecords | scripts/compute_cohort_stats.py:43-70 | there is no entry at all exactly when no line of any file is usable |
| CohortStats.FileRecsStep | scripts/compute_cohort_stats.py:47-66 | one more line appends its entry, if it is usable |
| CohortStats.ReadFile | scripts/compute_cohort_stats.py:45-66 | the inner loop appends the entries of one file |
| CohortStats.Collect | scripts/compute_cohort_stats.py:43-66 | the read loop collects the entries of all files |
| CohortStats.CountPositive | scripts/compute_cohort_stats.py:76-81 | a group is present exactly when it has a comment |
| CohortStats.ActiveBound | scripts/compute_cohort_stats.py:76-88 | `active_users <= comment_count`, and a group with a comment has an author |
| CohortStats.ActiveMonthSubset | scripts/compute_cohort_stats.py:83-102 | a month's authors are among the group's authors |
| CohortStats.MonthlyKeys | scripts/compute_cohort_stats.py:90-95 | the monthly keys of a group are its months |
| CohortStats.CountInAdd | scripts/compute_cohort_stats.py:90-95 | adding a month adds its comments |
| CohortStats.ActiveInAdd | scripts/compute_cohort_stats.py:97-102 | adding a month adds its authors |
| CohortStats.CountInAll | scripts/compute_cohort_stats.py:76-95 | all of a group's months hold all its comments |
| CohortStats.ActiveInAll | scripts/compute_cohort_stats.py:83-102 | all of a group's months hold all its authors |
| CohortStats.SumCommentsIn | scripts/compute_cohort_stats.py:90-95 | summing distinct months counts the comments in them |
| CohortStats.CountInNone | scripts/compute_cohort_stats.py:90-95 | no month holds no comment |
| CohortStats.ActiveInNone | scripts/compute_cohort_stats.py:97-102 | no month holds no author |
| CohortStats.SumActiveIn | scripts/compute_cohort_stats.py:97-102 | the monthly author counts sum to at least the authors of those months |
| CohortStats.Months | scripts/compute_cohort_stats.py:90-95 | a group's months, each once |
| CohortStats.StatsOf | scripts/compute_cohort_stats.py:76-102 | the definition of the four tables: `comment_count` and the number of distinct authors per `(cohort, subreddit)` group and per `(cohort, month, subreddit)` group present among the entries |
| CohortStats.MonthlyCommentsSum | scripts/compute_cohort_stats.py:76-95 | the monthly `comment_count` values of a group sum to its total `comment_count` |
| CohortStats.MonthlyActiveBounds | scripts/compute_cohort_stats.py:83-102 | each monthly `active_users` is at most the group's, and the monthly values sum to at least it |
| CohortStats.StatsBounds | scripts/compute_cohort_stats.py:76-88 | the two overall tables have one entry per group present, with `0 < active_users <= comment_count` |
| CohortStats.MonthlyStatsBounds | scripts/compute_cohort_stats.py:90-102 | the same for the two monthly tables |
| CohortStats.MonthBound | scripts/compute_cohort_stats.py:90-102 | a monthly group present has a comment and at most as many authors as comments |
| CohortStats.MonthAbsent | scripts/compute_cohort_stats.py:90-102 | a monthly group absent has no comment and no author |
| CohortStats.Run | scripts/compute_cohort_stats.py:43-102 | `ValueError` exactly when no usable comment was read; otherwise the four tables of the entries |

## Left out

- Decompression, file and directory I/O, globbing, argparse, progress printing, timing and `tqdm` are not modelled. Inputs are the decoded lines of each file, with glob patterns already expanded.
- JSON decoding is abstract. A line is its decoded object with optional fields, or nothing when the decoder rejects it. A JSON value that is not an object is not modelled. Neither are field values of another type than the script expects (a `null` author, a non-integer `created_utc`, an unhashable value).
- Python's universal newlines are not modelled: a `\r` in a userlist or seed file is an ordinary whitespace character, which `strip()` removes.
- `pathlib`'s `Path.name` normalises the path first: it drops trailing slashes and `.` components, which `Paths.Basename` does not. So `d/2024-01/` and `d/2024-01/.` give `2024-01` in `compute_users_per_sub.py` but `unknown` in `UsersPerSub.MonthFrom`. `os.path.basename` is modelled exactly.
- Regex `\d` is modelled as the ASCII digits, not every Unicode decimal digit.
- pandas datetime handling is not modelled. `rel_days` is the floor division of the gap in seconds by 86400. The month of a comment comes from a function given as a parameter, in place of `to_period('M')`.
- The pandas sorts of the core are all on two columns (`compute_user_drift_paths.py:80`, `user_drift_paths.py:84`, `build_transition_graph.py:56`). pandas sorts on several columns with a lexicographic sort, which is stable. So `DriftPaths.FirstSeed` takes the first seed comment in input order among several at the same second, as `drop_duplicates(keep="first")` does after that sort. `TransitionGraph.SortRowsStable` proves that the model's sort also keeps rows of one author with equal `rel_days` in input order.
- The group-by outputs are maps from group key to value. The row order of the output CSVs and their CSV formatting are not modelled. Only `compute_users_per_sub.py`'s CSV text is.
- Graph writing (GEXF, GraphML) is not modelled. A graph is a map of nodes and a map of edges. The windowed graph is its edge-weight map; its nodes are the endpoints of those edges.
- The conversion of the windowed weights to `float` is not modelled. The weights are kept as integers, so any loss of precision for very large counts is not captured.
- SHA-256 is an arbitrary function given as a parameter. The count of users assumes it is injective.
- `OverlapGraph.Passes`: `J_MIN` is the exact fraction `jNum / jDen`, and the overlap comparison is on rationals. Float division, `round(j, 4)` and the stored float weight are not modelled.
- `OverlapGraph.CountCombinations`: the numpy `uint32` array is modelled as unbounded naturals. Ids are assumed to stay below `2**32`.
- `make_overlap_graph.py` prints progress using `i % STEP` (line 45) and `pair_updates % (STEP // 5)` (line 72). Their `ZeroDivisionError`s are not modelled. The first raises on the first line of the cohort file for `--log-step 0`. The second raises for `--log-step` 0 to 4, once the first pair is counted. A negative step raises neither, since Python's `%` accepts a negative divisor.
- `filter_seed_cohort.py` prints progress using `line_ct % STEP` (line 72). With `--log-step 0` this raises `ZeroDivisionError` on the first line. This is not modelled: `SeedCohort.Filter` scans every line for any step.
- `compute_user_drift_paths.py` accepts `--bins` but its binning code is commented out, so `DriftPaths.Run` has no bins parameter.
- After an error, the partial output a script has already written is not modelled. For example, the lines written before a missing key stops `filter_seed.py`. The one exception is `user_drift_paths.py`: its outcome keeps `user_paths.csv` beside the `--bins` failure that follows it.
- The model runs `user_drift_paths.py` as written, so with `--bins` it stops on `rel_days` (see Findings). The bucket table is specified and proved on the corrected step, `DriftBins.BinsCorrected`, which no run of the script as written reaches.
- A `None` author in `filter_seed_cohort.py` is kept as a value in the author set. The resulting `TypeError` of the userlist is modelled; sorting a mixed set that has only one element is not distinguished.
- `compute_cohort_stats.py` decodes the stripped line. The model uses the line's decoded object, so a line whose decoding depends on surrounding whitespace is not distinguished.
- `Userlists.MergeIdempotent` requires every name of the cohort to be a plain list name: non-empty, unpadded, and without a newline. A padded or multi-line author name is written in a form that reads back changed, so the merge is not idempotent for it.
- `SeedFilter.ExaminedCount` and `CohortFilter.Run` model the `--max-lines` cut-off as written. With a positive limit `N`, the counter reaches `N` on line `N` and the loop stops before examining it, so `N - 1` lines are examined.
- `compute_target_betweenness*.py` and `compute_average_users.py` are not part of this model. They are graph-library algorithms and floating-point averages.

## Findings

| source | as written | input that shows it | evidently intended | confidence | as-written member | corrected member |
|---|---|---|---|---|---|---|
| scripts/user_drift_paths.py:132-133 | the frame handed to `query` holds only `author`, `subreddit` and `bin`, so `rel_days` in the query string is an undefined name | any seed file and input with one seed poster, invoked with `--bins` | keep `rel_days` beside the bucket, as the commented-out variant at scripts/compute_user_drift_paths.py:131-133 does, and count distinct authors per bucket and subreddit among the rows with positive `rel_days` | not executed | DriftBins.BinsAsWritten (DriftBins.Drift, DriftBins.Run, DriftBins.BinsAsWrittenAlwaysCrash) | DriftBins.BinsCorrected (DriftBins.DriftCorrected, DriftBins.BinsCorrectedProduceTable, DriftBins.BinTableExact, DriftBins.BinUsersBound) |
