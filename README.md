# Graph features of resting-state fMRI signals

This project models the graph-feature engine of `feature_extraction/extraction_utils.py`. The engine turns brain-region correlation matrices into a dictionary of named features.

- **Graph builder.** `graph_from_corr_matrix` links regions whose absolute correlation exceeds a threshold. `remove_unwanted_ica_regions` then drops the regions that are not on a valid-region list.
- **Components.** `get_subgraphs` splits a disconnected graph into its connected components.
- **Feature record.** `instantiate_graph_features` creates a dictionary holding 14 statistics at 0 and `Subgraphs` at 1.
- **Scoring.** `get_graph_statistics` and `get_statistics_from_subgraph_set` score the graph:
  - a connected graph is scored whole, with weight 1;
  - in a disconnected graph, fragments of fewer than four nodes are tallied by `tally_graph_fragment`;
  - every larger component is scored by `get_small_world_features` with weight `len(component) / Non-isolated Nodes`.
- **Density.** `get_density` is computed exactly.
- **Extraction.** `ICA_graph_feature_extraction` and `atlas_time_series_feature_extraction`:
  - add the strict lower triangle of the correlation matrix under `"Correlation … vs …"` keys (`get_correlation_features`);
  - store the statistics of the graph built at each threshold under `"<label><statistic> at Threshold <t>"`.

The graph is a value, `Graphs.Graph(nodes: set<int>, edges: set<(int, int)>)`, with each edge stored once as `(i, j)` with `i < j`. The feature dictionary that the engine updates in place is the class `FeatureEngine.FeatureRecord`. Its methods are proved against the functions of `Statistics`, which state the same rules on values. Exceptions are values of `Outcomes.Result` / `Outcomes.Status`: a null graph, a library statistic that raised, or a Python division by zero.

The networkx statistics (sigma, omega, efficiencies, shortest paths, node connectivity, clustering, transitivity) are an uninterpreted parameter `measure: Graph -> Measurements`. For sigma and omega it says whether the call raised, returned an `int`/`float`, or returned another kind of number; for each other statistic it gives a real or says that the call raised. `str(threshold)` is a parameter `show: real -> string`.

Files:

| file | module | models |
|---|---|---|
| outcomes.dfy | `Outcomes` | `Option`, `Result`, `Status`, the exceptions |
| graphs.dfy | `Graphs` | graphs, induced subgraphs, walks, reachability, connectivity |
| builder.dfy | `Builder` | `graph_from_corr_matrix`, `remove_unwanted_ica_regions`, the configured valid ICA regions |
| components.dfy | `Components` | `get_subgraphs`, `nx.connected_components`, `nx.is_connected` |
| density.dfy | `GraphDensity` | `get_density` |
| statistics.dfy | `Statistics` | the record, `instantiate_graph_features`, `get_small_world_features`, `tally_graph_fragment`, the fold of `get_statistics_from_subgraph_set`, `get_graph_statistics` as functions |
| ordering.dfy | `ComponentOrder` | the fold gives the same record for every order of the components |
| aggregation.dfy | `Aggregation` | what the fold adds up to: node accounting, weights, failures, Sigma totals |
| weighting.dfy | `Weighting` | what the fold adds to each weighted statistic and to `Sigma`/`Omega` and their zero-denominator entries |
| engine.dfy | `FeatureEngine` | the in-place dictionary and the procedures that update it |
| naming.dfy | `FeatureKeys` | statistic names, threshold-qualified keys, the loops over thresholds |
| correlation.dfy | `Correlations` | `str.strip`, `get_correlation_features` |
| extraction.dfy | `Extraction` | the two extraction functions, from the variance features on |

## Model

| member | source | states |
|---|---|---|
| Builder.CorrelationGraphSpec | feature_extraction/extraction_utils.py:14-24 | The unfiltered graph has exactly the nodes 0..R-1. It has edge {i, j} (i < j) exactly when \|c[i][j]\| or \|c[j][i]\| exceeds the threshold, so it never has a self-loop. |
| Builder.RemoveUnwantedIcaRegions | feature_extraction/extraction_utils.py:29-40 | Each node not on the valid list is removed in a loop. With a non-empty list the nodes become the old nodes that are on the list; with an empty list nothing changes. The edges kept are exactly the old edges between surviving nodes. |
| Builder.GraphFromCorrMatrix | feature_extraction/extraction_utils.py:6-26 | The built graph has the nodes of 0..R-1 that are valid (all of them for an empty list). It has edge (i, j) exactly when i < j, both nodes survive, and either \|c[i][j]\| or \|c[j][i]\| exceeds the threshold. |
| Builder.SymmetricEdgeRule | feature_extraction/extraction_utils.py:16-23 | On a symmetric matrix, two distinct surviving nodes are adjacent exactly when \|c[i][j]\| > threshold. |
| Builder.ThresholdMonotone | feature_extraction/extraction_utils.py:20-25 | Raising the threshold keeps the same node set and can only remove edges. |
| Builder.ValidIcaRegionsSpec | config/config.py:18-20 | The configured valid ICA regions, made zero-based, are exactly 0..21 without 3. |
| Builder.AllRegionsKeepGraph | feature_extraction/extraction_utils.py:210-213 | Passing every index 0..R-1 as valid, as the atlas extraction does, removes nothing. |
| Builder.Range | feature_extraction/extraction_utils.py:211 | `list(np.arange(n))` is the list 0..n-1 in order. |
| Builder.RangeMembers | feature_extraction/extraction_utils.py:211 | A value is in `np.arange(n)` exactly when 0 <= v < n. |
| Builder.RemoveNode | feature_extraction/extraction_utils.py:39 | `graph.remove_node(v)` removes v and every edge that touches it, and nothing else. |
| Graphs.Induced | feature_extraction/extraction_utils.py:68 | `graph.subgraph(c)` keeps the nodes in c and exactly the edges with both ends in c. |
| Graphs.InducedValid | feature_extraction/extraction_utils.py:68 | An induced subgraph of a well-formed graph is well-formed. |
| Graphs.ReachableSym | feature_extraction/extraction_utils.py:66 | Reachability in an undirected graph is symmetric. |
| Graphs.ReachableTrans | feature_extraction/extraction_utils.py:66 | Reachability is transitive, so components are its classes. |
| Components.ComponentOf | feature_extraction/extraction_utils.py:66 | The component of v, found by a search loop, holds exactly the nodes reachable from v. |
| Components.ConnectedComponents | feature_extraction/extraction_utils.py:66 | The node sets listed are components, pairwise disjoint, and every node lies in one of them. |
| Components.GetSubgraphs | feature_extraction/extraction_utils.py:59-70 | The subgraphs are the induced subgraphs of the components, each connected, with pairwise disjoint node sets covering every node. |
| Components.IsConnected | feature_extraction/extraction_utils.py:132 | `nx.is_connected` raises on a graph without nodes; otherwise it answers whether every node reaches every other. |
| Components.ComponentConnected | feature_extraction/extraction_utils.py:68 | The subgraph induced by a component is connected. |
| Components.ComponentsDisjoint | feature_extraction/extraction_utils.py:66-69 | Two components are equal or disjoint. |
| Components.ComponentSubgraphsSpec | feature_extraction/extraction_utils.py:59-70 | The reference listing of components used by the functional model is a component list of the graph. |
| Components.ComponentListsPermute | feature_extraction/extraction_utils.py:66-69 | Any two listings of the components of a graph are permutations of each other. |
| GraphDensity.GetDensity | feature_extraction/extraction_utils.py:74-76 | The density raises a division by zero exactly when the graph has fewer than 2 nodes; otherwise it is 2e/(n(n-1)) and never negative. |
| GraphDensity.AllPairsCard | feature_extraction/extraction_utils.py:76 | A set of n nodes has n(n-1)/2 unordered pairs, the denominator of the density. |
| GraphDensity.DensityBounds | feature_extraction/extraction_utils.py:74-76 | On a well-formed graph of at least 2 nodes the density lies between 0 and 1. |
| GraphDensity.DensityOneIffComplete | feature_extraction/extraction_utils.py:74-76 | On a well-formed graph of at least 2 nodes the density is 1 exactly when every pair of nodes is linked. |
| GraphDensity.DensityOfEdgeless | feature_extraction/extraction_utils.py:74-76 | An edgeless graph of at least 2 nodes has density 0. |
| Statistics.InitialRecord | feature_extraction/extraction_utils.py:43-56 | The fresh dictionary maps `Subgraphs` to 1 and every other statistic it holds to 0. |
| Statistics.InitialRecordKeys | feature_extraction/extraction_utils.py:50-55 | The fresh dictionary holds every statistic except `Non-isolated Nodes`. |
| Statistics.ConnectedStart | feature_extraction/extraction_utils.py:131-133 | Before scoring a connected graph, `Non-isolated Nodes` is its node count, `Subgraphs` is 1, and everything else is 0. |
| Statistics.DisconnectedStart | feature_extraction/extraction_utils.py:136-139 | Before folding a disconnected graph, `Subgraphs` is the number of components and `Non-isolated Nodes` the total size of the components with more than 3 nodes. Everything else is 0. |
| Statistics.AddGains | feature_extraction/extraction_utils.py:91-110 | Adding amounts keeps the keys and adds each amount to its statistic. |
| Statistics.CoefficientGains | feature_extraction/extraction_utils.py:88-103 | The two `try` blocks touch only `Sigma`, `Sigma Zero Denominator`, `Omega` and `Omega Zero Denominator`. |
| Statistics.MeasuredGainsApplied | feature_extraction/extraction_utils.py:104-110 | Adding the amounts of a fully measured call is the seven `+=` updates in source order, after Sigma and Omega. |
| Statistics.SmallWorld | feature_extraction/extraction_utils.py:79-111 | `get_small_world_features` completes exactly when every statistic is computed; otherwise it raises. It leaves the counters (`Isolated …`, `Subgraphs`, `Non-isolated Nodes`) unchanged. |
| Statistics.CountersUntouched | feature_extraction/extraction_utils.py:88-110 | A completed call adds nothing to the fragment counters, `Subgraphs` or `Non-isolated Nodes`. |
| Statistics.SigmaRule | feature_extraction/extraction_utils.py:88-95 | Only a sigma that is neither int nor float adds sigma × weight to `Sigma`. An int or float sigma, or an exception, adds the weight to `Sigma Zero Denominator` instead. |
| Statistics.OmegaRule | feature_extraction/extraction_utils.py:96-103 | The same rule for omega, `Omega` and `Omega Zero Denominator`. |
| Statistics.SmallWorldWeighted | feature_extraction/extraction_utils.py:104-110 | Each of the seven other statistics, density included, gains exactly its reading times the weight. |
| Statistics.WeightedGain | feature_extraction/extraction_utils.py:104-110 | The amount a fully measured call adds for each weighted statistic is its reading times the weight. |
| Statistics.Tally | feature_extraction/extraction_utils.py:115-122 | A 1-node fragment adds 1 to `Isolated Nodes` and a 2-node fragment adds 1 to `Isolated Pairs`. Every other size, 3 included, changes nothing, and no other key changes. |
| Statistics.Step | feature_extraction/extraction_utils.py:150-156 | One loop pass keeps `Non-isolated Nodes` and `Subgraphs`. It raises exactly when the component has at least 4 nodes and either the denominator is 0 (division by zero) or a statistic raises. |
| Statistics.SubgraphSet | feature_extraction/extraction_utils.py:143-157 | The fold over the components never changes `Non-isolated Nodes` or `Subgraphs`. |
| Statistics.GraphStatisticsFull | feature_extraction/extraction_utils.py:125-140 | A graph scored without an exception yields a dictionary with every statistic. |
| FeatureEngine.FeatureRecord.constructor | feature_extraction/extraction_utils.py:43-56 | The loop over `GRAPH_FEATURES` and the `Subgraphs` assignment build exactly the initial record. |
| FeatureEngine.FeatureRecord.TallyGraphFragment | feature_extraction/extraction_utils.py:115-122 | Tallying in place leaves the dictionary as `Statistics.Tally` states. |
| FeatureEngine.FeatureRecord.AddSmallWorldFeatures | feature_extraction/extraction_utils.py:79-111 | The in-place `+=` sequence completes exactly when `Statistics.SmallWorld` does, leaving its record; otherwise it raises the same exception. |
| FeatureEngine.FeatureRecord.AddWeightedStatistics | feature_extraction/extraction_utils.py:104-110 | The seven `+=` updates, stopping at the first statistic that raises, add exactly the weighted amounts. |
| FeatureEngine.FeatureRecord.AddCoefficient | feature_extraction/extraction_utils.py:88-103 | One `try` block updates the value entry or the zero-denominator entry by the three-way rule. |
| FeatureEngine.FeatureRecord.Accumulate | feature_extraction/extraction_utils.py:91-110 | `features[s] += x` adds x to entry s only. |
| FeatureEngine.FeatureRecord.AddComponent | feature_extraction/extraction_utils.py:151-156 | One loop pass: a fragment of fewer than four nodes is tallied; a larger component is scored with weight `len / Non-isolated Nodes` and raises as `Statistics.Step` does. |
| FeatureEngine.FeatureRecord.StatisticsFromSubgraphSet | feature_extraction/extraction_utils.py:143-157 | The loop leaves the record of the fold `Statistics.SubgraphSet`, or raises its exception. |
| FeatureEngine.GetGraphStatistics | feature_extraction/extraction_utils.py:125-140 | `get_graph_statistics` returns exactly the reference `Statistics.GraphStatistics`, whatever order the components are listed in. |
| ComponentOrder.StepByGain | feature_extraction/extraction_utils.py:150-156 | Each pass adds amounts that depend only on the component and `Non-isolated Nodes`, and never touches `Non-isolated Nodes`. |
| ComponentOrder.TallyByGain | feature_extraction/extraction_utils.py:115-122 | Tallying a fragment is adding 1 to the counter its size picks, if any. |
| ComponentOrder.GainsCommute | feature_extraction/extraction_utils.py:150-156 | Two sets of amounts added in either order give the same record. |
| ComponentOrder.StepsCommute | feature_extraction/extraction_utils.py:150-156 | Swapping two neighbouring components does not change the fold. |
| ComponentOrder.SubgraphSetPermutation | feature_extraction/extraction_utils.py:143-157 | The fold gives the same result for every permutation of the components. |
| ComponentOrder.NonIsolatedCountPermutation | feature_extraction/extraction_utils.py:138-139 | `Non-isolated Nodes` does not depend on the order of the components. |
| ComponentOrder.StatisticsOrderFree | feature_extraction/extraction_utils.py:125-157 | Scoring over any listing of the components gives the statistics of the graph. |
| Aggregation.DisconnectedIsFold | feature_extraction/extraction_utils.py:135-140 | A disconnected, non-empty graph is scored by the fold over any listing of its components. |
| Aggregation.ComponentSizes | feature_extraction/extraction_utils.py:65-70 | The component sizes add up to the node count. |
| Aggregation.SizeSumSplit | feature_extraction/extraction_utils.py:138-139 | The total size is the 1-node count, plus twice the 2-node count, plus three times the 3-node count, plus the total of the components with more than 3 nodes. |
| Aggregation.SubgraphSetTallies | feature_extraction/extraction_utils.py:150-152 | A completed fold adds the number of 1-node components to `Isolated Nodes` and of 2-node components to `Isolated Pairs`; `Isolated Trios` is unchanged. |
| Aggregation.NodeAccounting | feature_extraction/extraction_utils.py:131-157 | For a disconnected graph scored without exception, `Isolated Nodes + 2·Isolated Pairs + 3·(3-node components) + Non-isolated Nodes` is the node count. `Isolated Trios` is 0 and `Subgraphs` is the number of components. |
| Aggregation.WeightsSumToOne | feature_extraction/extraction_utils.py:138-139 | The weights `len / Non-isolated Nodes` of the components with more than three nodes sum to 1. |
| Aggregation.ScaledWeightSum | feature_extraction/extraction_utils.py:155 | The weights times their denominator sum to `Non-isolated Nodes`. |
| Aggregation.NonIsolatedCountAtLeast | feature_extraction/extraction_utils.py:138-139 | A component with more than three nodes counts whole in `Non-isolated Nodes`, so that denominator is at least 4 whenever the division is reached. |
| Aggregation.SubgraphSetFailure | feature_extraction/extraction_utils.py:150-156 | A failed fold had a component of at least 4 nodes. The exception is a division by zero exactly when `Non-isolated Nodes` is 0. |
| Aggregation.DisconnectedFailures | feature_extraction/extraction_utils.py:136-156 | Scoring a disconnected graph never divides by zero. It fails only through a statistic that raised, on a graph with at least 4 non-isolated nodes. |
| Aggregation.SigmaFallback | feature_extraction/extraction_utils.py:88-95 | When no large component has a sigma of another numeric type, all weights go to `Sigma Zero Denominator` and `Sigma` is unchanged. |
| Aggregation.SigmaFromZero | feature_extraction/extraction_utils.py:136-157 | In that case the fold from the initial record ends with `Sigma` 0 and `Sigma Zero Denominator` 1 (0 without a large component). |
| Aggregation.SigmaZeroDenominatorTotal | feature_extraction/extraction_utils.py:125-157 | The same totals for the statistics of a disconnected graph. |
| Aggregation.NoLargeComponents | feature_extraction/extraction_utils.py:150-152 | Without a component of more than three nodes the fold cannot raise and changes only the two fragment counters. |
| Aggregation.ConnectedScoredWhole | feature_extraction/extraction_utils.py:131-134 | A connected graph completes exactly when every statistic is computed. It then scores `Non-isolated Nodes` = n, `Subgraphs` = 1, fragment counters 0, and each of the seven weighted statistics equal to its own reading (weight 1). |
| Aggregation.SingleNodeFails | feature_extraction/extraction_utils.py:132-134 | A one-node graph is connected and its density divides by zero, so its scoring always raises. |
| Weighting.WeightedContribution | feature_extraction/extraction_utils.py:104-110 | A completed call of `get_small_world_features` had the statistic computed, and adds its reading times the weight to the entry. |
| Weighting.CoefficientContribution | feature_extraction/extraction_utils.py:88-103 | A completed call adds sigma (omega) times the weight to `Sigma` (`Omega`) when it is of another numeric type; otherwise it adds the weight to the zero-denominator entry. |
| Weighting.SmallWorldAdds | feature_extraction/extraction_utils.py:88-110 | Every completed call adds to each of its nine entries the amount of that contribution for the weight given. |
| Weighting.StepAdds | feature_extraction/extraction_utils.py:151-156 | A completed pass over a component of more than three nodes adds the amounts with weight `len / Non-isolated Nodes`; a pass over a fragment adds nothing to those entries. |
| Weighting.FoldAdds | feature_extraction/extraction_utils.py:150-157 | A completed fold adds to each entry the weighted sum of the amounts over the components with more than three nodes. |
| Weighting.StartAdds | feature_extraction/extraction_utils.py:131-157 | From the initial record, the entry is that weighted sum with denominator `Non-isolated Nodes`, or 0 when there is no large component. |
| Weighting.DisconnectedAdds | feature_extraction/extraction_utils.py:135-157 | The same for the statistics of a disconnected graph scored without exception. |
| Weighting.DisconnectedWeighted | feature_extraction/extraction_utils.py:104-110 | Each weighted statistic of a disconnected graph is the sum of the large components' readings times their weights. |
| Weighting.FallbackSplitsWeights | feature_extraction/extraction_utils.py:88-103 | Each large component's weight goes to exactly one of the coefficient's value entry or its zero-denominator entry. |
| Weighting.DisconnectedCoefficients | feature_extraction/extraction_utils.py:88-103 | For a disconnected graph, `Sigma` (`Omega`) is the weighted sum of the coefficients of another numeric type, the zero-denominator entry is the weight of the other large components, and the two weight shares sum to 1 (both entries 0 without a large component). |
| FeatureKeys.StatOfName | feature_extraction/extraction_utils.py:50-55 | Every statistic name reads back as its statistic. |
| FeatureKeys.NameInjective | feature_extraction/extraction_utils.py:50-55 | Two statistics have the same name exactly when they are the same statistic. |
| FeatureKeys.NameWellSpaced | feature_extraction/extraction_utils.py:50-55 | No statistic name contains `" a"`, so the `" at Threshold "` separator cannot be found inside a name. |
| FeatureKeys.ThresholdKeyInjective | feature_extraction/extraction_utils.py:185 | Two qualified keys with the same prefix are equal exactly when the statistics and the printed thresholds are equal. |
| FeatureKeys.RecordOrderComplete | feature_extraction/extraction_utils.py:184 | The order in which the statistics dictionary yields its keys includes every statistic. |
| FeatureKeys.QualifySpec | feature_extraction/extraction_utils.py:184-186 | The renaming loop stores every statistic under its qualified key with its own value. It adds no other key and leaves every other feature unchanged. |
| FeatureKeys.QualifyAll | feature_extraction/extraction_utils.py:184-186 | After renaming, each statistic is under its qualified key with its value, every key is an old feature or a qualified key, and features not overwritten keep their values. |
| FeatureKeys.AddThresholdStatistics | feature_extraction/extraction_utils.py:184-186 | The in-place loop stores every statistic under `prefix + name + " at Threshold " + str(t)` with its value. It adds no other key and leaves other features unchanged. |
| FeatureKeys.QualifyStores | feature_extraction/extraction_utils.py:185-186 | A statistic of the dictionary is found under its qualified key with its value. |
| FeatureKeys.QualifyKeepsOtherTag | feature_extraction/extraction_utils.py:185-186 | Storing one threshold leaves the keys of another threshold unchanged. |
| FeatureKeys.ScoredThresholds | feature_extraction/extraction_utils.py:181-183 | Each threshold is paired with its printed form and the statistics of the graph built at it. |
| FeatureKeys.GraphFeaturesOverThresholds | feature_extraction/extraction_utils.py:181-186 | The loop over thresholds builds, scores and stores each graph. It returns the reference `ThresholdFeatures`, raising at the first threshold whose scoring raises. |
| FeatureKeys.StoredStep | feature_extraction/extraction_utils.py:181-186 | Storing one more threshold that was scored is one pass of the renaming loop. |
| FeatureKeys.StoredError | feature_extraction/extraction_utils.py:183 | A threshold whose scoring raised ends the extraction with that exception. |
| FeatureKeys.ErrorPersists | feature_extraction/extraction_utils.py:181-183 | Once a threshold has raised, later thresholds do not change the outcome. |
| FeatureKeys.IcaGraphFeatures | feature_extraction/extraction_utils.py:181-186 | The ICA loop keeps the given valid regions and labels its keys `"ICA "`. |
| FeatureKeys.AtlasGraphFeatures | feature_extraction/extraction_utils.py:210-217 | The atlas loop treats every region as valid and labels its keys `"Brainnetome Gyri "`. |
| FeatureKeys.StoreAllOk | feature_extraction/extraction_utils.py:181-186 | Storing completes exactly when every threshold was scored without exception. |
| FeatureKeys.StoreAllValue | feature_extraction/extraction_utils.py:181-186 | When printed thresholds are distinct, each statistic of each threshold is found under its key with its value. |
| FeatureKeys.StoreAllKeepsOthers | feature_extraction/extraction_utils.py:181-186 | Features whose keys no threshold writes are unchanged. |
| FeatureKeys.ThresholdFeaturesOk | feature_extraction/extraction_utils.py:181-186 | The threshold loop completes exactly when every threshold's graph is scored without exception. |
| FeatureKeys.ThresholdFeaturesValue | feature_extraction/extraction_utils.py:181-186 | With distinct printed thresholds, each statistic of the graph at threshold t is stored under its key for t. |
| FeatureKeys.ThresholdFeaturesKeepOthers | feature_extraction/extraction_utils.py:181-186 | A feature whose key is not a qualified key of any threshold survives the loop unchanged. |
| Correlations.LeadingSpaceSpec | feature_extraction/extraction_utils.py:255 | The leading run that `strip` removes is white space and stops at the first other character. |
| Correlations.TrailingSpaceSpec | feature_extraction/extraction_utils.py:255 | The trailing run that `strip` removes is white space and stops at the last other character. |
| Correlations.StripSpec | feature_extraction/extraction_utils.py:255 | `key.strip()` is the slice between the leading and trailing white-space runs, and it neither starts nor ends with white space. |
| Correlations.StripIdempotent | feature_extraction/extraction_utils.py:255 | Stripping twice is stripping once. |
| Correlations.StripUnchanged | feature_extraction/extraction_utils.py:255 | A text that neither starts nor ends with white space is unchanged by `strip`. |
| Correlations.CorrelationKeyShape | feature_extraction/extraction_utils.py:254-255 | A correlation key is its raw text less trailing white space, and stripping never cuts into `"Correlation <prefix><row> vs"`. |
| Correlations.LowerTriangleMembers | feature_extraction/extraction_utils.py:249-251 | The positions kept by the `triu` mask and `stack` are exactly those with column < row. |
| Correlations.LowerTriangleSize | feature_extraction/extraction_utils.py:249-251 | There are n(n-1)/2 of them. |
| Correlations.LowerTriangleOrdered | feature_extraction/extraction_utils.py:251-253 | They are visited row by row, and within a row by column. |
| Correlations.LowerTriangleDistinct | feature_extraction/extraction_utils.py:251-253 | No position is visited twice. |
| Correlations.StoreEntriesKeys | feature_extraction/extraction_utils.py:253-256 | Storing entries adds every listed key and no other key, and keeps the features no entry names. |
| Correlations.StoreEntriesValue | feature_extraction/extraction_utils.py:253-256 | A key no later entry repeats holds its entry's value: the last write wins. |
| Correlations.StoreEntriesFrom | feature_extraction/extraction_utils.py:253-256 | Every key written holds the value of some entry with that key. |
| Correlations.StoreEntriesAppend | feature_extraction/extraction_utils.py:253-256 | Storing two runs of entries is storing the first, then the second. |
| Correlations.GetCorrelationFeatures | feature_extraction/extraction_utils.py:239-257 | The nested loop over rows and columns below the diagonal produces the reference `CorrelationFeatures`: the features with each lower-triangle entry stored in `stack` order. |
| Correlations.StoreRow | feature_extraction/extraction_utils.py:253-256 | One row's entries left of the diagonal are stored in column order. |
| Correlations.TriangleEntriesOfLowerTriangle | feature_extraction/extraction_utils.py:249-253 | Storing row by row stores exactly the entries of the lower-triangle positions in `stack` order. |
| Correlations.PositionListed | feature_extraction/extraction_utils.py:249-254 | Every position (i, j) with j < i is listed, with key `Correlation <prefix><label i> vs <label j>` stripped and value c[i][j]. |
| Correlations.ListedPosition | feature_extraction/extraction_utils.py:249-254 | Every listed entry comes from a position below the diagonal. |
| Correlations.CorrelationKeysPresent | feature_extraction/extraction_utils.py:253-256 | Every position below the diagonal gets its key. |
| Correlations.CorrelationKeysOnlyLower | feature_extraction/extraction_utils.py:249-256 | Every new key comes from a position below the diagonal; the diagonal and the upper triangle add nothing. |
| Correlations.CorrelationFeaturesKeepOthers | feature_extraction/extraction_utils.py:253-256 | A feature whose key is no correlation key is unchanged. |
| Correlations.CorrelationFeaturesFromLowerTriangle | feature_extraction/extraction_utils.py:249-256 | Even when keys collide, each stored key holds the correlation of some position below the diagonal with that key. |
| Correlations.CorrelationFeatureValue | feature_extraction/extraction_utils.py:249-256 | When the labels give distinct keys, the key of (i, j) holds exactly c[i][j]. |
| Correlations.LaterKeyDiffers | feature_extraction/extraction_utils.py:253-256 | With distinct keys, no later entry overwrites an earlier one. |
| Extraction.DecimalDigits | feature_extraction/extraction_utils.py:177 | `str` of a column number is a non-empty run of digits. |
| Extraction.DecimalInjective | feature_extraction/extraction_utils.py:177 | Two column numbers print the same exactly when they are equal. |
| Extraction.IcaKeyUnstripped | feature_extraction/extraction_utils.py:254-255 | An ICA correlation key is unchanged by `strip`. |
| Extraction.IcaKeyInjective | feature_extraction/extraction_utils.py:179 | Two ICA correlation keys are equal only for the same pair of regions. |
| Extraction.IcaKeysDistinct | feature_extraction/extraction_utils.py:177-179 | The ICA region labels give every position below the diagonal its own key. |
| Extraction.NameCapitalised | feature_extraction/extraction_utils.py:50-55 | Every statistic name starts with a capital letter. |
| Extraction.VarianceKeyNotThresholdKey | feature_extraction/extraction_utils.py:174-185 | A signal-variance key is never an ICA threshold key. |
| Extraction.CorrelationKeyNotThresholdKey | feature_extraction/extraction_utils.py:185-254 | A correlation key is never a threshold key whose label does not start with `C`. |
| Extraction.IcaFeatureExtraction | feature_extraction/extraction_utils.py:169-187 | The correlations are added when asked for, then each threshold's statistics. The result is the reference `IcaFeatures`, including its exception. |
| Extraction.IcaFeaturesOk | feature_extraction/extraction_utils.py:181-187 | The ICA extraction completes exactly when every threshold's graph is scored without exception. |
| Extraction.IcaVarianceKept | feature_extraction/extraction_utils.py:173-186 | Every signal variance survives the ICA extraction unchanged. |
| Extraction.IcaCorrelationStored | feature_extraction/extraction_utils.py:178-179 | The ICA correlation of regions i and j (j < i) is stored under `Correlation ICA Regions: i vs j` with value c[i][j]. |
| Extraction.IcaCorrelationKeyNotThresholdKey | feature_extraction/extraction_utils.py:179-185 | An ICA correlation key is never an ICA threshold key. |
| Extraction.IcaCorrelationKept | feature_extraction/extraction_utils.py:178-186 | With correlations asked for, each ICA correlation survives the threshold loop with its value. |
| Extraction.AtlasFeatureExtraction | feature_extraction/extraction_utils.py:200-218 | The correlations (no prefix) are added when asked for, then each threshold's statistics when network features are asked for. The result is the reference `AtlasFeatures`, including its exception. |
| Extraction.AtlasWithoutNetworkOk | feature_extraction/extraction_utils.py:204-218 | Without network features the atlas extraction always completes, and without correlations it returns the variances unchanged. |
| Extraction.AtlasCorrelationKept | feature_extraction/extraction_utils.py:206-217 | With distinct label keys, each atlas correlation survives the threshold loop with its value. |

## Left out

- Reading the signal files (`pd.read_csv`), the transposes, `np.var` and `df.corr` are inputs here. The variance features and the correlation matrix are parameters, and the atlas variance keys (`index.strip() + ' Signal Variance'`) are part of the input dictionary.
- The networkx statistics are the uninterpreted parameter `measure`. Their floating-point internals and the random null models of `nx.sigma`/`nx.omega` are not modelled; only whether each call raised, and for sigma/omega whether it returned an int/float, matters here.
- Floating point: values are exact reals, so there is no NaN. `corr.stack()` drops NaN entries, so a NaN correlation below the diagonal (from a constant signal) is not stored by the source but is stored by the model.
- Python's ints and floats in the dictionary (counts, `Subgraphs`, `Non-isolated Nodes`) are all reals.
- `str(threshold)` is the parameter `show`. Lemmas about the value under a key ask that distinct listed thresholds print differently.
- Atlas region labels are taken as the strings that `str(index)` yields; the ICA labels are the decimal column numbers.
- The ICA valid-region list is a parameter. `Builder.ValidIcaRegions` is the configured list, which the callers pass.
- The iteration order of `nx.connected_components` is not modelled. `ComponentOrder.StatisticsOrderFree` shows that in this model, with exact reals and `measure` a function of the graph, the result is the same for every order. In the program, float addition and the random null graphs of `nx.sigma`/`nx.omega` make the result depend on the order.
- `get_correlation_features` (feature_extraction/extraction_utils.py:249) builds its mask with `.astype(np.bool)`. The model reads `np.bool` as the builtin `bool`. On NumPy 1.24 to 1.26, where `np.bool` is removed, the line raises `AttributeError` instead.
- `region_feature_extraction` is not part of this model (a pandas column division with no graph logic).
- FeatureEngine.FeatureRecord.AddSmallWorldFeatures: after an exception the partially updated dictionary is not stated, because every caller discards it.
- FeatureEngine.FeatureRecord.AddWeightedStatistics: the same; only the exception is stated after a raise.
- FeatureEngine.FeatureRecord.StatisticsFromSubgraphSet: the same; only the exception is stated after a raise.
- FeatureEngine.FeatureRecord.AddComponent: the same; only the exception is stated after a raise.
- FeatureKeys.GraphFeaturesOverThresholds: the source mutates the caller's dictionary in place, and its earlier thresholds' keys stay in it when a later one raises. The model returns a new map and an exception without the partial dictionary; aliasing of the shared dictionary is not modelled.
- Correlations.GetCorrelationFeatures: the same; the dictionary is returned as a new map, not updated in place.
- Extraction.IcaFeatureExtraction and Extraction.AtlasFeatureExtraction: an exception ends the extraction and no partial dictionary is returned.
- Quirks kept as written:
  - the third test in `tally_graph_fragment` repeats `== 2`, so `Isolated Trios` is never incremented;
  - 3-node components are sent to the tally, match no branch, and are not counted in `Non-isolated Nodes`, so they leave no trace in any counter;
  - an int or float sigma/omega adds to the zero-denominator entry.
- For 3-node components the code is followed: they go to the tally branch, because the test is `len < 4`. They are not scored with the larger components.
