# A verified model of the per-repository analysis

`analyze_repo_multi_trhead.py` mines a list of repositories to judge whether
each one is built as microservices. For every repository it combines four
sources of evidence into one record:

- the docker-compose file: one record per service, the databases it uses,
  whether two services share one, and the dependency graph with and without
  its infrastructure services;
- every Dockerfile: the base image, the command, the `RUN` keywords and one
  tag per category;
- every build manifest: every listed word it contains;
- the detected languages.

The record is written under a file name derived from the repository's
identifier, and that identifier also yields the repository's clone URL.

This project models that deterministic analysis in Dafny and proves its
properties. The modules follow the program's structure:

| module | models |
|---|---|
| `Wrappers` | `Option`, and `Result` with the Python exceptions the analysis can raise |
| `Lists` | lists built from Python sets (`list(s)`): no duplicates, elements fixed, order not |
| `Text` | `str.split` (with and without `maxsplit`), `str.join`, `str.replace` (all, first), `splitlines`, suffix tests and the tokenizer `get_words` |
| `Taxonomy` | the categories of `DATA`, and `match_one`, `match_ones`, `match_alls` |
| `Keywords` | `keywords(data, n)`: `Counter(words).most_common(n)` |
| `Yaml` | the loaded YAML values, and the Python operations the compose analysis applies to them |
| `Graphs` | the `networkx.DiGraph` the analysis mutates (a class), walks, cycles, the longest path and the reported metrics |
| `Compose` | `analyze_docker_compose` and `check_shared_db` |
| `Dockerfile` | `analyze_dockerfile` over the parsed instruction list |
| `Manifest` | `analyze_file` over the decoded file content |
| `Synthesis` | `synthetize_data` |
| `Urls` | `url(project_id)`, the result-file name of `analyze_repo` and its reading-back in `analyze_all` |

The code's loops are modelled as imperative Dafny: `match_alls`, the compose
service loop, the graph mutations, `check_shared_db`, the Dockerfile
instruction loop and the in-place updates of `synthetize_data`. Each such
method is proved equal to a function on values, and the properties are
proved about those functions. The code's pure computations (`match_one`,
`match_ones`, `url`, the file naming) are functions, with lemmas.

Decisions the model makes about the code:

- **Database tags.** `synthetize_data` replaces every tag ending in `db` by
  `db` itself (lines 335-338), so `mongodb` becomes `db`; it does not strip
  a suffix and keep the rest.
- **Base image.** The Dockerfile loop overwrites `from` at every `FROM`
  (lines 164-167), so the record holds the *last* `FROM`, not the first.
- **Longest path.** `dag_longest_path_length` raises on a cyclic graph
  (line 297), and the `except` at line 299 does not catch that. The model
  returns `Err(CyclicGraph)`, which ends the compose analysis.
- **Scheme.** `url`'s docstring shows `http://`, but the code builds
  `https://`. The model uses `https://`.
- **Set orders.** Python sets are turned into lists (`list(alls)`, the
  `names` of `detected_dbs`, the tag lists of `synthetize_data`). The model
  fixes only their elements, with no duplicates; it does not fix their order.
- **Key uniqueness.** A loaded compose document is a Python object, so the
  keys of each of its mappings are distinct. `Compose.AnalyzeCompose`
  requires this (`Yaml.Valid`).

Inputs that the program takes from I/O become parameters:

- the word lists (`Taxonomy.Taxonomy`);
- the loaded YAML document (`Compose.ComposeSource`);
- the parsed Dockerfile (`Dockerfile.DockerfileSource`);
- the decoded manifest text (`Manifest.ManifestSource`);
- the languages;
- the repository size.

## Model

| member | source | states |
|---|---|---|
| Taxonomy.AllCategories | analyze_repo_multi_trhead.py:46-49 | every category is a key of `DATA` |
| Taxonomy.MatchOne | analyze_repo_multi_trhead.py:52-60 | `are_similar` is equality, so the result is `[name]` exactly when the list holds `name`, else `[]` |
| Taxonomy.MatchOnes | analyze_repo_multi_trhead.py:70-75 | at most one word; empty exactly when no token is listed; otherwise the earliest listed token, with no listed token before it |
| Taxonomy.MatchOnesMembers | analyze_repo_multi_trhead.py:70-75 | a word returned is one of the tokens and a listed word |
| Taxonomy.MatchOnesAppend | analyze_repo_multi_trhead.py:176-179 | scanning `a + b` gives `a`'s match, or `b`'s when `a` has none; this is Python's `match_ones(a) or match_ones(b)` |
| Taxonomy.MatchOnesOrderMatters | analyze_repo_multi_trhead.py:70-75 | the same tokens in another order give another answer (`mysql` vs `redis`) |
| Taxonomy.MatchAlls | analyze_repo_multi_trhead.py:63-67 | the result has no duplicates; its elements are exactly the tokens the list holds; every element is both a token and a list word |
| Taxonomy.MatchesOrderIndependent | analyze_repo_multi_trhead.py:63-67 | token lists with the same elements (any order, any repetition) match the same words |
| Lists.ListOf | analyze_repo_multi_trhead.py:67 | `list(s)` holds every element of the set exactly once, and as many elements as the set |
| Lists.DistinctCard | analyze_repo_multi_trhead.py:207 | a list has no duplicates exactly when its set is as long as the list (`len(set(x)) != len(x)`) |
| Lists.NoDuplicatesAppend | analyze_repo_multi_trhead.py:206 | a concatenation has no duplicates exactly when neither part has any and the parts share no element |
| Text.GetWordsShape | analyze_repo_multi_trhead.py:132-139 | every word `get_words` returns is longer than two characters and has no blank, punctuation, digit or upper-case letter |
| Text.GetWords | analyze_repo_multi_trhead.py:132-139 | every word returned is longer than two characters |
| Text.LongWordsMembers | analyze_repo_multi_trhead.py:136 | a word is kept exactly when it is one of the tokens and longer than two characters |
| Text.LongWordsCount | analyze_repo_multi_trhead.py:136 | each word longer than two characters is kept as many times as it occurs among the tokens; shorter words never |
| Text.LongWordsAppend | analyze_repo_multi_trhead.py:136 | the filter of a concatenation is the concatenation of the filters, so the kept words stay in token order |
| Text.Lower | analyze_repo_multi_trhead.py:135 | same length; every character that is not an upper-case letter is kept in place, and every upper-case letter becomes the same letter in lower case |
| Text.JoinSplit | analyze_repo_multi_trhead.py:461 | joining the pieces of a split with the separator gives the original string back |
| Text.SplitFromBound | analyze_repo_multi_trhead.py:461 | a split limited to `n` cuts yields at most `n + 1` pieces |
| Text.SplitOnce | analyze_repo_multi_trhead.py:461 | `s.split(c, 1)` is the text before the first `c` and the text after it, or `[s]` when there is no `c` |
| Text.BeforeFirst | analyze_repo_multi_trhead.py:166 | `s.split(':')[0]` has no `:`, is a prefix of `s`, and is followed by the first `:` (or is all of `s`) |
| Text.SplitFirstPiece | analyze_repo_multi_trhead.py:239 | with any limit, the first piece of a split is the text before the first separator |
| Text.ReplaceAllAbsent | analyze_repo_multi_trhead.py:371 | replacing a pattern that does not occur changes nothing |
| Text.ReplaceAllOne | analyze_repo_multi_trhead.py:371 | `replace('/', '#')` on a string with one `/` replaces exactly that one |
| Text.ReplaceFirstChar | analyze_repo_multi_trhead.py:371 | `replace('_', '#', 1)` replaces the first `_` only, and nothing when there is none |
| Text.ReplaceFirstCharShape | analyze_repo_multi_trhead.py:371 | the first-occurrence replacement keeps the length and brings in no character other than the replacement |
| Text.ReplaceFirstCharUndone | analyze_repo_multi_trhead.py:484 | replacing the first `#` back by `_` undoes replacing the first `_` by `#`, when the string had no `#` |
| Text.RemoveTrailingPattern | analyze_repo_multi_trhead.py:484 | `replace('.json', '')` on `s + '.json'` gives `s` when `s` holds no `.json` |
| Text.JoinLinesShape | analyze_repo_multi_trhead.py:191 | the file's lines joined by blanks hold no line boundary, and every character comes from the file or is the blank |
| Text.SplitLinesFromShape | analyze_repo_multi_trhead.py:191 | no line of `splitlines` contains a line boundary, and every character of a line comes from the text |
| Keywords.Distinct | analyze_repo_multi_trhead.py:144 | the `Counter`'s keys: no duplicates, and exactly the words of the text |
| Keywords.FirstIndex | analyze_repo_multi_trhead.py:144 | the position of the first occurrence of a word: it holds the word, and no earlier position does |
| Keywords.DistinctFirstOccurrence | analyze_repo_multi_trhead.py:144 | the `Counter` keys are words of the text, listed in order of their first occurrence |
| Keywords.DistinctBefore | analyze_repo_multi_trhead.py:144 | one key precedes another exactly when its first occurrence in the text is earlier |
| Keywords.MaxIndex | analyze_repo_multi_trhead.py:145 | picks a candidate of highest count, the first one among equals |
| Keywords.MostCommonOrder | analyze_repo_multi_trhead.py:142-146 | at most `n` distinct words of the text (all of them when there are fewer); counts never increase along the list; of two words with equal counts, the one whose first occurrence in the text is earlier comes first |
| Keywords.MostCommonTop | analyze_repo_multi_trhead.py:142-146 | every word left out occurs at most as often as every word kept; a word left out that occurs as often as a kept one first occurs later in the text |
| Keywords.MostCommonExample | analyze_repo_multi_trhead.py:142-146 | a word occurring twice is ranked before a word occurring once |
| Keywords.MostCommon | analyze_repo_multi_trhead.py:145 | `most_common(n)`: at most `n` words, without duplicates (ranking in `Keywords.MostCommonOrder` and `Keywords.MostCommonTop`) |
| Keywords.KeywordsOf | analyze_repo_multi_trhead.py:142-146 | at most `n` keywords, without duplicates |
| Yaml.Lookup | analyze_repo_multi_trhead.py:238 | a key is absent exactly when no entry has it; otherwise the value found is the value of an entry with that key |
| Yaml.Member | analyze_repo_multi_trhead.py:238 | `key in v` then `v[key]`: a lookup on a mapping; raises on None, numbers and booleans |
| Yaml.Iterate | analyze_repo_multi_trhead.py:262 | `list(v)` raises exactly on None, numbers and booleans; a string iterates as its characters |
| Yaml.Label | analyze_repo_multi_trhead.py:273 | adding a value as a node fails for None (networkx refuses it) and for lists and mappings (not hashable); a string is its own node and a number or boolean is the node of its printed text |
| Yaml.Labels | analyze_repo_multi_trhead.py:273 | a list of nodes succeeds exactly when every element is hashable, element by element |
| Compose.Identity | analyze_repo_multi_trhead.py:238-246 | a truthy string image gives the text before its first `:` (all of it when it has no `:`) and the full image, and a truthy image of another type raises; without a truthy image, a truthy string build gives the build twice, a truthy mapping build gives `str()` of its first value twice, and any other truthy build raises; with neither, both are empty; a list or string service body gives an empty identity |
| Compose.ServiceTags | analyze_repo_multi_trhead.py:248-251 | the keys are exactly the six categories searched, so `langs` is not one |
| Compose.ServiceTagsFacts | analyze_repo_multi_trhead.py:248-251 | each category holds at most one word, a word of the image that the category lists; it is empty exactly when no word of the image is listed |
| Compose.Dependencies | analyze_repo_multi_trhead.py:256-267 | a `depends_on` mapping gives its keys, a string its characters, a list its strings, `null` gives `[]`, and a number raises; `links` is read only without `depends_on`; with neither, the list is `[]` |
| Compose.LabelsOfIteration | analyze_repo_multi_trhead.py:258-262 | `list()` of a mapping gives its keys; of a list of strings, those strings |
| Compose.LabelsOfString | analyze_repo_multi_trhead.py:273 | iterating a string gives its characters, each a one-character node |
| Compose.ServiceOf | analyze_repo_multi_trhead.py:236-267 | the record succeeds exactly when both identity and dependencies do; it carries the name, the identity, the tags of the identity and the dependencies |
| Compose.ServicesOfErrPersists | analyze_repo_multi_trhead.py:233-268 | once a service raises, the whole analysis raises with that error |
| Compose.ServicesOfShape | analyze_repo_multi_trhead.py:233-235 | at most one record per entry; the record names are exactly the names of the non-empty services |
| Compose.DbEntries | analyze_repo_multi_trhead.py:253-254 | no more entries than services; each entry is a service with a database and its first database |
| Compose.DbEntriesAppend | analyze_repo_multi_trhead.py:253-254 | the entries of two runs of services are the first run's followed by the second's, so entries keep service order |
| Compose.DbEntriesComplete | analyze_repo_multi_trhead.py:253-254 | every service with a database contributes its name and its first database |
| Compose.DbEntriesNames | analyze_repo_multi_trhead.py:279-281 | the `services` of `detected_dbs` are exactly the services with a database, and its `names` exactly their first databases |
| Compose.SharedDbsMeaning | analyze_repo_multi_trhead.py:279-282 | `shared_dbs` is `check_shared_db` over exactly the services with a database, and `num` counts one entry per such service |
| Compose.InfraNames | analyze_repo_multi_trhead.py:275-276 | every name listed is an infrastructure service |
| Compose.InfraNamesComplete | analyze_repo_multi_trhead.py:275-276 | every infrastructure service is listed |
| Compose.InfraNamesSound | analyze_repo_multi_trhead.py:287-288 | every listed name is a node of the full graph, so `remove_node` cannot raise |
| Compose.SharedDbStep | analyze_repo_multi_trhead.py:205-206 | a longer prefix shares a database exactly when the shorter one does or the new service shares one with an earlier service |
| Compose.DbDepsDisjoint | analyze_repo_multi_trhead.py:206-207 | a service's database dependencies are all new exactly when it shares none with an earlier service |
| Compose.CheckSharedDb | analyze_repo_multi_trhead.py:202-207 | true exactly when two distinct services depend on one same database service; listing a database twice in one service does not count |
| Compose.FullGraph | analyze_repo_multi_trhead.py:271-273 | every edge joins two nodes of the graph |
| Compose.Without | analyze_repo_multi_trhead.py:285-288 | removing nodes keeps edges between nodes, and gives a subgraph |
| Compose.FullGraphSnoc | analyze_repo_multi_trhead.py:271-273 | one more service adds its name, its dependencies and an edge to each dependency |
| Compose.GraphShape | analyze_repo_multi_trhead.py:256-288 | the full graph has a node per service name plus one per undeclared dependency target, an edge for each `(service, dependency)` pair and no other; the reduced graph's nodes are the full graph's minus the infrastructure services, and its edges are exactly the full edges between remaining nodes |
| Compose.ComposeGraphs | analyze_repo_multi_trhead.py:277-297 | the analysis raises exactly when the full graph has a cycle; otherwise both graphs are acyclic, the reduced one is no larger, and its longest path is no longer |
| Compose.MemberValid | analyze_repo_multi_trhead.py:233 | a value under a key of a valid document is valid |
| Compose.AddService | analyze_repo_multi_trhead.py:271-273 | the graph gains the service's node, its dependencies as nodes and an edge to each of them, and stays closed |
| Compose.ReadServices | analyze_repo_multi_trhead.py:233-276 | the loop returns the services of the document (or its first error), the full graph of those services, their `detected_dbs` entries and their infrastructure names, without duplicates |
| Compose.ServiceStep | analyze_repo_multi_trhead.py:268-276 | one turn of the loop adds the service to the records, the graph, the databases and the infrastructure names, and those names stay distinct |
| Compose.ErrStep | analyze_repo_multi_trhead.py:236-267 | a service that raises makes the whole analysis raise with its error |
| Compose.Reduce | analyze_repo_multi_trhead.py:284-288 | the copy stripped of the listed nodes is the full graph without them and their edges |
| Compose.AnalyzeCompose | analyze_repo_multi_trhead.py:220-303 | the imperative analysis returns exactly the record of `Compose.ComposeOf`: empty for an unloadable or empty file, an error when the loader raises an error the `except` does not catch or a Python operation raises, the services and both graphs' metrics otherwise |
| Compose.ComposeOf | analyze_repo_multi_trhead.py:220-303 | an unloadable file gives the empty record and a loader error that escapes the `except` raises; a record keeps the path and counts its services; with services, it holds their `detected_dbs` and both graph metrics (contents in `Compose.ComposeGraphs`, `Compose.SharedDbsMeaning`) |
| Graphs.DiGraph.constructor | analyze_repo_multi_trhead.py:222 | a new graph has no nodes and no edges |
| Graphs.DiGraph.AddNode | analyze_repo_multi_trhead.py:271 | adds the node and leaves the edges alone |
| Graphs.DiGraph.AddEdgesFrom | analyze_repo_multi_trhead.py:273 | adds every pair as an edge and both of its ends as nodes, with duplicates collapsing |
| Graphs.DiGraph.RemoveNode | analyze_repo_multi_trhead.py:288 | removes the node and every edge touching it |
| Graphs.DiGraph.Copy | analyze_repo_multi_trhead.py:285 | a fresh graph with the same nodes and edges |
| Graphs.PairsSnoc | analyze_repo_multi_trhead.py:273 | one more pair adds its source, its target and itself |
| Graphs.AcyclicIffNoCycle | analyze_repo_multi_trhead.py:296 | the acyclicity test holds exactly when no walk returns to its start |
| Graphs.SelfLoopIsCycle | analyze_repo_multi_trhead.py:296 | a graph with a self-loop is not acyclic |
| Graphs.AcyclicWalkIsPath | analyze_repo_multi_trhead.py:297 | in an acyclic graph every walk visits distinct nodes |
| Graphs.WalkFromMeansWalk | analyze_repo_multi_trhead.py:296-297 | a walk of `k` edges starts at `v` exactly when such a node list exists |
| Graphs.Pigeonhole | analyze_repo_multi_trhead.py:296 | a walk longer than the node count repeats a node |
| Graphs.CycleOfRepeat | analyze_repo_multi_trhead.py:296 | a walk that repeats a node contains a cycle |
| Graphs.LongestBelowSpec | analyze_repo_multi_trhead.py:297 | the search finds the longest walk length up to its bound |
| Graphs.LongestPath | analyze_repo_multi_trhead.py:297 | `dag_longest_path_length` raises exactly on a graph that is not acyclic; it is 0 without nodes and less than the node count otherwise |
| Graphs.LongestPathIsLongest | analyze_repo_multi_trhead.py:297 | on an acyclic graph the length is defined, no walk is longer, and a non-empty graph has a walk that long |
| Graphs.SubgraphCycle | analyze_repo_multi_trhead.py:285-288 | a cycle of a subgraph is a cycle of the graph |
| Graphs.SumOutDegreesIsEdgeCount | analyze_repo_multi_trhead.py:292-293 | the out-degrees sum to the edge count |
| Graphs.MetricsFacts | analyze_repo_multi_trhead.py:289-297 | the metrics exist exactly when the graph has no cycle, and then report it acyclic |
| Graphs.MetricsMean | analyze_repo_multi_trhead.py:292-295 | the average times the node count is the sum of out-degrees, and the average is 0 without nodes |
| Graphs.MetricsOf | analyze_repo_multi_trhead.py:289-297 | the metrics exist exactly when the graph passes the acyclicity test; they count its nodes and edges and carry its longest path (acyclicity in `Graphs.AcyclicIffNoCycle`) |
| Graphs.ComputeMetrics | analyze_repo_multi_trhead.py:289-297 | summing the out-degrees node by node gives the metrics of the graph's value |
| Dockerfile.DockerTags | analyze_repo_multi_trhead.py:175-179 | a tag list for every category |
| Dockerfile.DockerTagIsSearch | analyze_repo_multi_trhead.py:176-179 | the `or`-chain is the base image itself when listed, else the first listed word of the image, command and `RUN` text read in turn; at most one listed word |
| Dockerfile.LastFromIsLast | analyze_repo_multi_trhead.py:164-167 | there is a base image exactly when some `FROM` names one, and it is from a `FROM` with no later image-naming `FROM` |
| Dockerfile.LastCmdIsLast | analyze_repo_multi_trhead.py:170-172 | there is a command exactly when some `CMD` exists, and it is the joined arguments of the last one |
| Dockerfile.RunsAppend | analyze_repo_multi_trhead.py:168-169 | the `RUN` text of two parts is the first part's followed by the second's |
| Dockerfile.Step | analyze_repo_multi_trhead.py:164-172 | what one more instruction does to the last `FROM`, the last `CMD` and the `RUN` text |
| Dockerfile.Apply | analyze_repo_multi_trhead.py:165-172 | the loop body: a `FROM` sets both images, a `CMD` sets the command and its keywords, a `RUN` appends its text and a blank |
| Dockerfile.ScanStep | analyze_repo_multi_trhead.py:164-172 | one turn keeps the loop's summaries equal to those of the instructions read so far |
| Dockerfile.Scan | analyze_repo_multi_trhead.py:163-173 | the loop ends with the last `FROM`'s image with and without tag, the last `CMD` and its keywords, all `RUN` texts, and the `RUN` keywords (unset for an empty file) |
| Dockerfile.AnalyzeDockerfile | analyze_repo_multi_trhead.py:158-183 | the imperative analysis gives exactly `Dockerfile.DockerOf` |
| Dockerfile.DockerOfShape | analyze_repo_multi_trhead.py:158-183 | an unparsable file has no tags or keywords; a parsed one has at most one tag per category, keywords exactly when it has instructions, at most five keywords each, and a base image without `:` |
| Dockerfile.DockerOf | analyze_repo_multi_trhead.py:158-183 | keeps the path; the tags are absent exactly when the file could not be parsed; the base image has no `:`; the full base image is the last `FROM`'s |
| Manifest.JoinedLines | analyze_repo_multi_trhead.py:191 | the joined text has no line boundary |
| Manifest.MatchCategories | analyze_repo_multi_trhead.py:192-195 | a tag list for exactly the categories other than `langs`, each without duplicates and holding exactly the listed words of the file |
| Manifest.AnalyzeFile | analyze_repo_multi_trhead.py:186-199 | keeps the path; an undecodable file has no tags; otherwise every category but `langs` holds exactly the file's listed words, without duplicates |
| Manifest.ManifestTagsAreMatches | analyze_repo_multi_trhead.py:186-199 | a tag is a listed word of the file, longer than two characters; files with the same words get the same tags |
| Synthesis.CollectedSpec | analyze_repo_multi_trhead.py:318-322 | a word is gathered exactly when some part tags the category with it |
| Synthesis.CollectedAppend | analyze_repo_multi_trhead.py:327-329 | gathering two lists of parts one after the other gathers their concatenation |
| Synthesis.CollapseDbSuffixFacts | analyze_repo_multi_trhead.py:335-338 | after the collapse no database tag but `db` ends in `db`; `db` is there exactly when some tag ended in `db`; the other tags are kept |
| Synthesis.DropSentinelFacts | analyze_repo_multi_trhead.py:340-347 | the discard removes at most the generic tag, never empties a set, and leaves the generic tag only as the sole tag |
| Synthesis.NormalizeDbsFacts | analyze_repo_multi_trhead.py:335-341 | the surviving database tags are the ones not ending in `db`, or `db` alone; nothing survives only when nothing was found |
| Synthesis.NormalizeDbsIdempotent | analyze_repo_multi_trhead.py:335-341 | normalising the database tags twice changes nothing |
| Synthesis.DropSentinelIdempotent | analyze_repo_multi_trhead.py:340-347 | discarding the generic tag twice changes nothing |
| Synthesis.NormalizeFacts | analyze_repo_multi_trhead.py:335-347 | for every category: non-empty stays non-empty, normalising is idempotent, the generic tag remains only alone, and categories without one are untouched |
| Synthesis.NormalizeExampleNamed | analyze_repo_multi_trhead.py:335-341 | `{mysql, db}` becomes `{mysql}` |
| Synthesis.NormalizeExampleGeneric | analyze_repo_multi_trhead.py:340-341 | `{db}` stays `{db}` |
| Synthesis.NormalizeExampleSuffix | analyze_repo_multi_trhead.py:335-338 | `{mongodb}` becomes `{db}` |
| Synthesis.NormalizeExampleSuffixDropped | analyze_repo_multi_trhead.py:335-341 | `{mongodb, redis}` becomes `{redis}` |
| Synthesis.TagProvenance | analyze_repo_multi_trhead.py:318-347 | a repository tag other than `db` was found by some part or is a language; every found tag that is neither generic nor ends in `db` is a repository tag |
| Synthesis.ImagesOf | analyze_repo_multi_trhead.py:334 | the images are exactly the non-empty base images of the Dockerfiles |
| Synthesis.AvgSizeFacts | analyze_repo_multi_trhead.py:354 | the average times `max(num_dockers, 1)` is the size; it is the size without Dockerfiles, and never more than the size |
| Synthesis.SynthesisFacts | analyze_repo_multi_trhead.py:335-353 | about `Synthesis.SynthesisOf`: each `num_<k>` is the size of the final set; the only database tag ending in `db` is `db`; a generic tag remains only alone; `num_files` is Dockerfiles plus manifests plus one |
| Synthesis.EmptyTags | analyze_repo_multi_trhead.py:324-325 | every category starts empty |
| Synthesis.AddPart | analyze_repo_multi_trhead.py:320-322 | each category gains the part's tags, when the part has that category |
| Synthesis.AddData | analyze_repo_multi_trhead.py:318-322 | each category gains everything the parts gathered |
| Synthesis.GatherTags | analyze_repo_multi_trhead.py:324-332 | every category holds the tags of the manifests, services and Dockerfiles, and `langs` also the languages |
| Synthesis.CollapseStep | analyze_repo_multi_trhead.py:335-338 | one turn of the collapse loop keeps its invariant, whatever tag the set walk yields |
| Synthesis.CollapseOne | analyze_repo_multi_trhead.py:336-338 | a tag ending in `db` is discarded and `db` added; any other tag leaves the set alone |
| Synthesis.CollapseDbs | analyze_repo_multi_trhead.py:335-338 | the loop over the set, in any order, yields the collapsed set |
| Synthesis.DropGeneric | analyze_repo_multi_trhead.py:340-347 | the one category loses its generic tag when it has more than one tag; the others are untouched |
| Synthesis.NormalizeTags | analyze_repo_multi_trhead.py:335-347 | every category ends up normalised |
| Synthesis.CountTags | analyze_repo_multi_trhead.py:349-350 | each count is its category's size |
| Synthesis.Images | analyze_repo_multi_trhead.py:334 | the set of the non-empty base images |
| Synthesis.Synthetize | analyze_repo_multi_trhead.py:315-354 | the imperative synthesis gives exactly `Synthesis.SynthesisOf` |
| Urls.SourceforgeEntry | analyze_repo_multi_trhead.py:452 | the Sourceforge marker maps to `git.code.sf.net/p` |
| Urls.UrlChunks | analyze_repo_multi_trhead.py:461 | the split yields one or two chunks, never more, so the `len(chunks) > 2` branches are dead |
| Urls.UrlSpec | analyze_repo_multi_trhead.py:455-474 | specifies `Urls.Url` on every identifier: one with `_` resolves to the platform of the text before its first `_`, then the rest, not flagged; one without resolves to `github.com/<id>`, flagged as probably invalid |
| Urls.UrlIgnoresHosts | analyze_repo_multi_trhead.py:461-468 | any first chunk except the Sourceforge marker, including a host from the table, is taken for a GitHub owner |
| Urls.UrlSourceforge | analyze_repo_multi_trhead.py:463-468 | a Sourceforge identifier resolves on Sourceforge's git host |
| Urls.UrlNoUnderscore | analyze_repo_multi_trhead.py:466-472 | an identifier without `_` is `https://github.com/<id>`, flagged as probably invalid |
| Urls.UrlExampleGithub | analyze_repo_multi_trhead.py:461-474 | `foo_bar` resolves to `https://github.com/foo/bar` |
| Urls.UrlExampleHost | analyze_repo_multi_trhead.py:461-474 | `bitbucket.org_alice_myrepo` resolves to `https://github.com/bitbucket.org/alice_myrepo` |
| Urls.IntendedUrlHost | analyze_repo_multi_trhead.py:437-474 | with the host table applied, `host_ns_name` resolves to `https://<host's git server>/ns/name` |
| Urls.IntendedUrlSplit | analyze_repo_multi_trhead.py:437-474 | with the host table applied, `host_rest` resolves on the host, with the first `_` of the rest becoming `/` |
| Urls.IntendedUrlAgrees | analyze_repo_multi_trhead.py:461-474 | on GitHub and Sourceforge identifiers the intended reading and `url` agree |
| Urls.IntendedUrlExample | analyze_repo_multi_trhead.py:437-474 | intended: `bitbucket.org_alice_myrepo` resolves to `https://bitbucket.org/alice/myrepo` |
| Urls.UrlHostFinding | analyze_repo_multi_trhead.py:437-474 | `url` and its intended reading differ on `bitbucket.org_alice_myrepo` |
| Urls.RepoNameOfGithubUrl | analyze_repo_multi_trhead.py:366-367 | about `Urls.RepoName`: without a project identifier, a GitHub URL names the repository by what follows `https://github.com/` |
| Urls.ResultFileNameOfId | analyze_repo_multi_trhead.py:371-372 | an `owner_repo` identifier is written to `owner#repo.json` |
| Urls.OutfileOfRepo | analyze_repo_multi_trhead.py:371-372 | a repository named `owner/repo` is written to `results/owner#repo.json` |
| Urls.ResultFileRoundTrip | analyze_repo_multi_trhead.py:371-372 | `Urls.AnalyzedId` (line 484) reads the identifier back from its result file name, when the identifier has no `/`, `#` or `.json` |
| Urls.ResultFileExample | analyze_repo_multi_trhead.py:371-372 | `CS340-19_lectures` is written to `CS340-19#lectures.json` |
| Urls.OutfileExample | analyze_repo_multi_trhead.py:366-372 | `https://github.com/foo/bar` is written to `results/foo#bar.json` |
| Urls.ResultFileName | analyze_repo_multi_trhead.py:371-372 | the result file name ends in `.json` (reading back in `Urls.ResultFileRoundTrip`) |

## Left out

- Cloning, the GitHub API size query and the size threshold (lines 78-115): network and subprocess I/O.
- `locate_files`, `compute_size`, `committers` and `analyze_languages` (lines 118-155, 210-217, 306-312): filesystem walks and external tools. Their results (file contents, the size, the languages) are parameters.
- The YAML loader (line 228), `dockerfile.parse_file` (line 162) and file decoding (line 190): foreign parsers. Their outputs are structured values, and their caught errors are the `Unloadable`, `Unparsable` and `Undecodable` variants.
- Compose.ComposeOf: the loader's errors other than decoding, parser and scanner errors (composer, constructor and reader errors) escape the `except` at line 299; the model has one `Rejected` source for all of them, raising `LoaderError`, and does not tell them apart.
- Compose.Dependencies: when `depends_on` is a string, line 260 keeps the string itself in the service record, while the model records its characters. The graph (line 273) and `check_shared_db` (line 206) iterate over the characters, so both agree with the code; only the recorded `depends_on` field differs. A list `depends_on` that holds numbers is likewise recorded as their printed text.
- Yaml.Label: numbers and booleans become the node of their printed text, so `1` and `"1"` name the same node while `True`, `1` and `1.0`, equal in Python, name three; mapping keys are modelled as strings only.
- Text.GetWords: nltk's `word_tokenize` (line 136) is modelled as a whitespace split after punctuation and digits become blanks, so nltk's own splitting (contractions, for example) is not captured; every word kept is still longer than two characters.
- Text.Lower: lower-cases ASCII letters only; Python's full Unicode case mapping is not modelled.
- Keywords.MostCommonOrder: `Counter.most_common` is modelled as a stable selection by count, which is how CPython orders equal counts; no library internals are modelled.
- The word lists are read from CSV files (lines 28-44) and are a parameter.
- `FileLock`, the `threading.Lock` around the error counter and the `ThreadPoolExecutor` (lines 20-26, 102-106, 497-504): their point is concurrency.
- Writing the JSON record, the log files, the pandas CSV selection, e-mail and the command line (lines 404-420, 476-577): I/O, CLI and notification.
- Urls.Url: the probably-invalid-URL log write (lines 471-472) is I/O; the model returns a flag in its place.
- The lock file name built from the URL's words and the `FileLock` itself (lines 358-359), and the skip when the result file already exists (line 373): filesystem state.
- `remove_invalid_char` (lines 425-434): a UTF-16 surrogate re-encoding detail.
- Float division (lines 292-295, 354): modelled as exact `real` division, not floating point.
- Set and listing orders: `list(set)`, the `names` of `detected_dbs` and the walk order of `for db in set(...)` are not fixed by the program; the model fixes only the elements.
- Compose.ComposeGraphs: the edge counts of the two graphs are related only by `<=`; the exact count of edges removed is not stated.
- Exceptions raised by Python operations that the model does not reach are not modelled one by one; those the analysis can raise are named after their Python kind in `Wrappers.Error`.

## Findings

| source | as written | input that shows it | evidently intended | confidence | as-written member | corrected member |
|---|---|---|---|---|---|---|
| analyze_repo_multi_trhead.py:461-474 | `split("_", 1)` yields at most two chunks, so `len(chunks) > 2` never holds and the host table is used only for Sourceforge; a host identifier resolves on GitHub | `bitbucket.org_alice_myrepo` gives `https://github.com/bitbucket.org/alice_myrepo` | `https://bitbucket.org/alice/myrepo`: the table's host, then namespace and repository | medium; not executed | Urls.UrlExampleHost, Urls.UrlHostFinding | Urls.IntendedUrlHost, Urls.IntendedUrlExample |

The evident intent is read from `URL_PREFIXES` and from the dead branches at
lines 463 and 473. `Urls.Url` models the code as written.
`Urls.IntendedUrl` applies the table to `host_namespace_repository`
identifiers and otherwise agrees with `Urls.Url` (`Urls.IntendedUrlAgrees`).
`analyze_all` keeps only URLs containing `github` (line 493), so with the
code as written such repositories are analysed as GitHub repositories,
which do not exist.
