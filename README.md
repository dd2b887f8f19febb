# NetKet core: Hilbert spaces, local Hamiltonians, lattices and graph searches

This project is a Dafny model of the C++ core of NetKet, a library for many-body quantum physics with neural-network quantum states. It covers these parts:

- **Hilbert spaces.** A `Spin` space has spin `S` on every site and takes the local values `-2S, -2S+2, …, 2S`. A `Boson` space has occupations `0 … Nmax` on every site. Either space can carry a constraint, a total magnetisation or a total boson number. Both draw random configurations, and both update configurations site by site. For `S = 1/2` a successful constrained draw meets the constraint. For bosons it does so when `Nbosons ≥ 0`, and gives a total of 0 when `Nbosons` is negative. For spins with larger `S` the drawn values add up to `2·quanta − 2S·N`, which is twice the target exactly when `S·N + TotalSz` is a non-negative integer. `Hilbert` is the closed union of the two.
- **Local operators.** A `LocalOperator` is a dense matrix acting on a few sites. Its constructor numbers the local basis states, and `FindConn` lists the matrix elements that connect a configuration to other configurations. A `CustomHamiltonian` is a list of local operators whose connections are concatenated, with the diagonal parts added into one entry.
- **Lattices and graphs.** A `Hypercube` is an `L^ndim` lattice with open or periodic boundaries; the model covers its site numbering, adjacency list and translation table. A `CustomGraph` is given by an adjacency list, an edge list or a size, and is then validated.
- **Graph searches.** The searches are a bounded breadth-first search from one site, a search over all components, the distances from one site, and the table of all distances.
- **JSON converters.** These convert vectors, matrices and complex numbers to and from JSON.

Each object that the source mutates in place is a Dafny `class` with `modifies` clauses. This covers `Spin`, `Boson`, the configuration vectors (`array<real>`) and the connection buffers. Objects that never change after construction are classes with `const` fields, built by a static `New`/`Init` factory that returns a `Result`. The source's loops are methods whose loop invariants tie their results to specification functions: `Configurations.Apply`, `LocalOperator.ConnMels`, `CustomGraphs.Incident`, `Hypercubes.Lattice`, `GraphFunctions.IsDistance` and others. The physics lives in lemmas about those functions. Examples are that the two breadth-first searches visit exactly the reachable sites at their true distances, and that a periodic hypercube is bipartite exactly when `L` is even.

`Spin::SetConstraint` only stores the target magnetisation (spins.hpp:92-95). Whether it can be reached is checked later, for `S = 1/2` only, when `RandomVals` draws a configuration (spins.hpp:120-130). The model does the same.

Modelling choices:

- **Numbers.** `double` values are exact `real`s. `static_cast<int>` is `Numbers.Trunc`, and the C++ `%` operator is `Numbers.CppMod`. The iteration count of a `for (int i = 0; i < x; ++i)` loop over a real bound is `Numbers.LoopCount`.
- **Complex numbers.** `std::complex<double>` is `Complexes.Complex` over `real`. A matrix element counts as non-zero when its squared modulus exceeds `1e-12`.
- **Randomness.** The random number generator is `Random.Engine`, which reads its draws from a stream that the caller supplies. The contracts use only the range of each draw, so they hold for any stream.
- **next_variation.** The enumeration by `next_variation` (next_variation.hpp is not part of this model) is taken to be `Variations.Tuples`: all tuples of the box in lexicographic order, last digit fastest. The lattice numbers its sites in that order. The local-operator code uses only the abstract `Variations.IsVariationOrder` (starts at all-zeros, lists every tuple exactly once), and the only fact that depends on the concrete order is that a one-dimensional chain numbers its sites 0, 1, …, L−1.

## Model

| member | source | states |
|---|---|---|
| Spins.SpinLocalStates | NetKet/Hilbert/spins.hpp:81-89 | the local values for spin S are the 2S+1 numbers from -2S to 2S in steps of 2, strictly increasing |
| Spins.Spin.New | NetKet/Hilbert/spins.hpp:55-67 | construction succeeds exactly when S is a positive integer or half-integer; the constraint is on exactly when TotalSz is given, and it then holds that value |
| Spins.Spin.Init | NetKet/Hilbert/spins.hpp:69-90 | fails with an invalid-input error exactly when S <= 0 or 2S is not integral; on success the space is valid, with local values -2S..2S |
| Spins.Spin.SetConstraint | NetKet/Hilbert/spins.hpp:92-95 | switches the constraint on with the new target and changes nothing else; it performs no feasibility check |
| Spins.Spin.LocalSize | NetKet/Hilbert/spins.hpp:99 | the local dimension is 2S+1, the number of local values |
| Spins.Spin.LocalStates | NetKet/Hilbert/spins.hpp:103 | the local values run from -2S to 2S in steps of 2 |
| Spins.Spin.RandomVals | NetKet/Hilbert/spins.hpp:105-154 | unconstrained, every site takes a local value; for S=1/2 with a constraint, it fails exactly when the target magnetisation is unreachable (and then leaves the state untouched), otherwise the result has the right numbers of up and down spins; for larger S with a constraint, every site takes a local value and the values add up to 2*quanta - 2S*N, where quanta is the loop count of S*N + TotalSz (twice TotalSz when S*N + TotalSz is a non-negative integer, see PoolSumIsTwiceTotal) |
| Spins.Spin.RandomFree | NetKet/Hilbert/spins.hpp:111-115 | every site gets one of the local values |
| Spins.Spin.RandomHalf | NetKet/Hilbert/spins.hpp:116-136 | fails exactly when the magnetisation has the wrong parity or magnitude; otherwise the result holds nup spins equal to +1 and ndown spins equal to -1 |
| Spins.Spin.RandomPool | NetKet/Hilbert/spins.hpp:137-153 | every site ends on a local value and the sum of the configuration is 2*quanta - 2S*N |
| Spins.Spin.FillMinimum | NetKet/Hilbert/spins.hpp:141 | every site is set to -2S |
| Spins.Spin.PoolIncrements | NetKet/Hilbert/spins.hpp:144-152 | the increment loop keeps every site within the local values and ends with the values adding up to 2*quanta - 2S*N |
| Spins.Spin.PoolDraw | NetKet/Hilbert/spins.hpp:145-151 | one draw raises one site by 2, keeps the pool equal to the sites below the top value, and raises the sum by 2 |
| Spins.PoolStep | NetKet/Hilbert/spins.hpp:146-150 | raising a site taken from the pool, and removing it when it reaches 2S, preserves the pool invariant |
| Spins.PoolNonEmpty | NetKet/Hilbert/spins.hpp:144-146 | while increments remain, the pool of raisable sites is non-empty, so the draw is well defined |
| Spins.PoolStart | NetKet/Hilbert/spins.hpp:138-141 | all sites at -2S with every site in the pool satisfy the pool invariant |
| Spins.PoolSumIsTwiceTotal | NetKet/Hilbert/spins.hpp:144 | when S*N + TotalSz is integral, the final sum 2*quanta - 2S*N equals 2*TotalSz |
| Spins.SomeSiteBelowMax | NetKet/Hilbert/spins.hpp:144-147 | a configuration whose sum is below the maximum has a site below 2S |
| Spins.UpDownFillCounts | NetKet/Hilbert/spins.hpp:131-135 | nup values +1 followed by ndown values -1 contain exactly nup ups and ndown downs, and sum to nup - ndown |
| Spins.SiteIndices | NetKet/Hilbert/spins.hpp:138-139 | the initial pool is 0, 1, …, N-1 |
| Spins.Spin.UpdateConf | NetKet/Hilbert/spins.hpp:156-166 | the new configuration is the old one with newconf[i] written at tochange[i], in order |
| Configurations.ApplyUnlisted | NetKet/Hilbert/spins.hpp:161-164 | a site not listed in tochange keeps its value |
| Configurations.ApplyLastWrite | NetKet/Hilbert/spins.hpp:161-164 | a listed site holds the value of its last occurrence in tochange |
| Configurations.WriteSites | NetKet/Hilbert/bosons.hpp:150-153 | the in-place loop yields exactly the in-order application of the writes |
| Bosons.OccupationStates | NetKet/Hilbert/bosons.hpp:84-89 | the local values are 0, 1, …, Nmax |
| Bosons.Boson.New | NetKet/Hilbert/bosons.hpp:57-73 | construction succeeds exactly when nsites > 0, Nmax > 0 and any requested Nbosons is at most nsites*Nmax |
| Bosons.Boson.Init | NetKet/Hilbert/bosons.hpp:75-91 | fails exactly when nsites <= 0 or Nmax <= 0; otherwise the space is valid |
| Bosons.Boson.SetNbosons | NetKet/Hilbert/bosons.hpp:93-100 | stores the constraint in every case, and fails exactly when Nbosons exceeds nsites*Nmax |
| Bosons.Boson.LocalSize | NetKet/Hilbert/bosons.hpp:104 | the local dimension is Nmax+1, the number of local values |
| Bosons.Boson.LocalStates | NetKet/Hilbert/bosons.hpp:108 | the local values are 0..Nmax, strictly increasing |
| Bosons.Boson.RandomVals | NetKet/Hilbert/bosons.hpp:110-134 | unconstrained, every site takes a local value; constrained and successful, every site holds 0..Nmax bosons and the total is Nbosons, or 0 when Nbosons is negative |
| Bosons.Boson.RandomFree | NetKet/Hilbert/bosons.hpp:114-119 | every site gets one of the local values |
| Bosons.Boson.AddBosons | NetKet/Hilbert/bosons.hpp:120-133 | on success the occupations stay within 0..Nmax and add up to Nbosons, or to 0 when Nbosons is negative |
| Bosons.IncrementStep | NetKet/Hilbert/bosons.hpp:127-131 | adding a boson to a site below Nmax keeps the occupations valid and raises the total by one |
| Bosons.ZeroOccupations | NetKet/Hilbert/bosons.hpp:121 | the empty configuration is a valid occupation with total 0 |
| Bosons.SumTruncIntegral | NetKet/Hilbert/bosons.hpp:137-141 | on integral values, the sum of truncations equals the real sum |
| Bosons.Boson.CheckConstraint | NetKet/Hilbert/bosons.hpp:136-143 | true exactly when the truncated occupations add up to Nbosons |
| Bosons.Boson.UpdateConf | NetKet/Hilbert/bosons.hpp:145-160 | applies the writes in order; with a constraint, the result still has Nbosons bosons |
| Hilbert.Space.LocalStates | NetKet/Hilbert/hilbert.hpp:93 | each space's local values are at least two and strictly increasing |
| Hilbert.Space.View | NetKet/Hilbert/hilbert.hpp:69-72 | the view seen by operators is discrete, has the space's size, and carries the space's own local values, which are distinct |
| Random.Engine.Uniform | NetKet/Hilbert/spins.hpp:107-114 | a uniform integer draw lies in [lo, hi] and consumes one value of the stream |
| Random.Shuffle | NetKet/Hilbert/spins.hpp:135 | shuffling permutes the configuration: the multiset of values is unchanged |
| LocalOperators.ShapeCheckAsWritten | NetKet/Hamiltonian/local_operator.hpp:76-94 | the shape check as written accepts every matrix whose rows are empty or square |
| LocalOperators.EmptyRowPassesShapeCheck | NetKet/Hamiltonian/local_operator.hpp:78-89 | the matrix [[], [0, 0]] passes the check as written but is not square |
| LocalOperators.ConnectedColumns | NetKet/Hamiltonian/local_operator.hpp:76-94 | succeeds exactly on square matrices, and lists for each row the increasing off-diagonal columns whose entries are non-zero |
| LocalOperators.StatesFromIndices | NetKet/Hamiltonian/local_operator.hpp:97-108 | each basis state is the tuple of local values indexed by its digit tuple |
| LocalOperators.LookupDistinct | NetKet/Hamiltonian/local_operator.hpp:97-108 | distinct digit tuples give distinct basis states |
| LocalOperators.InverseMap | NetKet/Hamiltonian/local_operator.hpp:110-116 | the map sends each basis state back to its number |
| LocalOperators.MinMax | NetKet/Hamiltonian/local_operator.hpp:65-66 | returns the smallest and largest acting site |
| LocalOperators.LocalOperator.New | NetKet/Hamiltonian/local_operator.hpp:53-119 | succeeds exactly when the space is discrete, every site lies in [0, Size()), and the matrix is square with side localsize^nsites (empty rows refused); the operator is then valid |
| LocalOperators.LocalOperator.Gather | NetKet/Hamiltonian/local_operator.hpp:163-166 | reads the configuration at the acting sites |
| LocalOperators.LocalOperator.StateNumber | NetKet/Hamiltonian/local_operator.hpp:162-168 | finds the number of the local basis state, and fails exactly when the configuration holds a value that is not local |
| LocalOperators.LocalOperator.StateIndex | NetKet/Hamiltonian/local_operator.hpp:167 | the index found is the basis state of the gathered values |
| LocalOperators.LocalOperator.ConnMels | NetKet/Hamiltonian/local_operator.hpp:152-159 | the connected elements of a row are its non-zero off-diagonal entries, in column order |
| LocalOperators.LocalOperator.ConnConfs | NetKet/Hamiltonian/local_operator.hpp:152-159 | the new local configurations are the basis states of the connected columns |
| LocalOperators.LocalOperator.AppendConnections | NetKet/Hamiltonian/local_operator.hpp:152-159 | appends exactly those elements, the acting sites once per connection, and the new configurations |
| LocalOperators.LocalOperator.AddConn | NetKet/Hamiltonian/local_operator.hpp:134-160 | adds the diagonal element into the first entry, creating it when empty, and appends the off-diagonal connections |
| LocalOperators.LocalOperator.FindConn | NetKet/Hamiltonian/local_operator.hpp:121-132 | the buffers start afresh; the first entry is the diagonal element with no change, followed by one aligned entry per connected state |
| LocalOperators.NumberingIsBijective | NetKet/Hamiltonian/local_operator.hpp:97-116 | the basis states are distinct, and the inverse map and the numbering are mutual inverses |
| LocalOperators.StatesAreLocal | NetKet/Hamiltonian/local_operator.hpp:97-108 | there are localsize^nsites basis states, each a tuple of local values, one per acting site |
| CustomHamiltonians.CustomHamiltonian.New | NetKet/Hamiltonian/custom_hamiltonian.hpp:35-64 | succeeds exactly when ActingOn and Operators have equal lengths and every local operator is accepted |
| CustomHamiltonians.CustomHamiltonian.FindConn | NetKet/Hamiltonian/custom_hamiltonian.hpp:66-77 | the aligned buffers hold the summed diagonal followed by every operator's connections in order |
| CustomHamiltonians.CustomHamiltonian.AddOperator | NetKet/Hamiltonian/custom_hamiltonian.hpp:74-76 | adding operator i extends the aggregate of operators 0..i-1 to 0..i |
| CustomHamiltonians.AggregateLengths | NetKet/Hamiltonian/custom_hamiltonian.hpp:74-76 | the aggregated elements, sites and configurations have one entry per connection |
| CustomHamiltonians.AggregateAligned | NetKet/Hamiltonian/custom_hamiltonian.hpp:66-77 | the aggregate buffers are aligned and have 1 + the number of connections entries |
| CustomHamiltonians.AggregateExtend | NetKet/Hamiltonian/custom_hamiltonian.hpp:74-76 | one AddConn call on an aggregate yields the aggregate with one more operator |
| Hypercubes.CheckArgs | NetKet/Graph/hypercube.cc:7-23 | parameters are accepted exactly when L >= 1, ndim >= 1, and L > 2 when periodic |
| Hypercubes.PeriodicSteps | NetKet/Graph/hypercube.cc:93-95 | the periodic successor and predecessor wrap around at the box edges |
| Hypercubes.WrapInBox | NetKet/Graph/hypercube.cc:91-98 | periodic neighbours stay in the box and moving up then down returns to the start |
| Hypercubes.GenerateLatticePoints | NetKet/Graph/hypercube.cc:71-80 | lists the L^ndim coordinates in the order Variations.Tuples, starting at the origin, with the coordinate-to-site map as their inverse |
| Hypercubes.PbcNeighbours | NetKet/Graph/hypercube.cc:91-98 | a periodic site's neighbours are its two wrapped neighbours along each axis |
| Hypercubes.OpenNeighbours | NetKet/Graph/hypercube.cc:99-106 | the open-boundary loop links each site to its neighbour one step up per axis, in both directions, and no row ever lists a site twice |
| Hypercubes.GenerateAdjacencyList | NetKet/Graph/hypercube.cc:82-112 | the adjacency list is the lattice adjacency for the chosen boundary: periodic rows hold the +1 and -1 neighbours axis by axis; open rows hold exactly the sites one unit away, each once |
| Hypercubes.OpenEdgeFresh | NetKet/Graph/hypercube.cc:99-106 | the edge from site i to its +1 neighbour along an axis is pushed for the first time, in neither direction before |
| Hypercubes.SymmetryTable | NetKet/Graph/hypercube.cc:116-138 | open boundaries are refused; periodic ones give the table of all lattice translations |
| Hypercubes.TranslationRow | NetKet/Graph/hypercube.cc:129-134 | entry p of row i is the site whose coordinates are those of site i plus those of site p, modulo L |
| Hypercubes.TranslatePoint | NetKet/Graph/hypercube.cc:130-132 | the coordinates are summed axis by axis, modulo L |
| Hypercubes.TranslationRowZero | NetKet/Graph/hypercube.cc:128-136 | translation by the origin is the identity |
| Hypercubes.TranslationRowsArePermutations | NetKet/Graph/hypercube.cc:128-136 | every translation permutes the sites |
| Hypercubes.Hypercube.New | NetKet/Graph/hypercube.cc:26-37 | construction succeeds exactly on valid parameters, building the lattice and its adjacency, with the sites numbered in the order Variations.Tuples |
| Hypercubes.Hypercube.Nsites | NetKet/Graph/hypercube.hpp:56 | the number of sites is L^ndim |
| Hypercubes.Hypercube.Length | NetKet/Graph/hypercube.hpp:58 | the side is at least 1, at least 3 when periodic, and side^ndim is the number of sites |
| Hypercubes.Hypercube.Ndim | NetKet/Graph/hypercube.hpp:60 | the dimension is at least 1 and L^dimension is the number of sites |
| Hypercubes.Hypercube.AdjacencyList | NetKet/Graph/hypercube.hpp:66-68 | the adjacency list is in range and symmetric |
| Hypercubes.Hypercube.SiteCoord | NetKet/Graph/hypercube.hpp:64 | a site's coordinate lies in the box and maps back to the site |
| Hypercubes.Hypercube.Coord2Site | NetKet/Graph/hypercube.hpp:72-74 | a coordinate is found exactly when it lies in the box, otherwise an out-of-range error |
| Hypercubes.Hypercube.Symmetries | NetKet/Graph/hypercube.cc:116-138 | periodic lattices return translations, with the identity first and each row a permutation |
| Hypercubes.Hypercube.IsBipartite | NetKet/Graph/hypercube.hpp:76 | the accessor as written answers true for every lattice |
| Hypercubes.Hypercube.Bipartite | NetKet/Graph/hypercube.hpp:76 | true exactly when the lattice has a proper two-colouring |
| Hypercubes.BipartiteExactly | NetKet/Graph/hypercube.hpp:76 | a hypercube is bipartite exactly when it is open or has even side |
| Hypercubes.IsBipartiteOddRing | NetKet/Graph/hypercube.hpp:76 | on a periodic lattice with odd side, IsBipartite answers true although the graph is not bipartite |
| Hypercubes.ParityIsProper | NetKet/Graph/hypercube.hpp:76 | colouring sites by coordinate-sum parity is proper on open lattices and on even periodic ones |
| Hypercubes.OddRing | NetKet/Graph/hypercube.hpp:76 | along one axis of a periodic lattice there is a closed walk of odd length L |
| Hypercubes.Hypercube.IsConnected | NetKet/Graph/hypercube.hpp:78 | the accessor answers true, and every pair of sites is indeed connected |
| Hypercubes.AllReachable | NetKet/Graph/hypercube.hpp:78 | every site of a hypercube is reachable from every other |
| Hypercubes.PathBetween | NetKet/Graph/hypercube.hpp:78 | two sites are joined by a path with Manhattan-distance steps |
| Hypercubes.LatticeSymmetric | NetKet/Graph/hypercube.cc:82-112 | the generated adjacency list is in range and symmetric |
| Hypercubes.OpenDistance | NetKet/Graph/hypercube.cc:99-106 | on an open lattice the graph distance between two sites is their Manhattan distance |
| Hypercubes.ChainDistance | Test/Graph/unit-graph.cc:96-116 | on an open chain (L = 20 in the test, any L here) the distance between site numbers i and j is abs(i - j), as Distances(i)[j] and AllDistances()[i][j] report |
| CustomGraphs.EmptyGraphDistances | Test/Graph/unit-graph.cc:123-132 | in the graph of Size n, the distance row of site i is 0 at i and -1 at every other site |
| Variations.TuplesIsVariationOrder | NetKet/Graph/hypercube.cc:71-80 | the lexicographic enumeration starts at zeros and lists every tuple of the box exactly once |
| Variations.VariationCount | NetKet/Graph/hypercube.cc:71-80 | any such enumeration has base^n entries |
| CustomGraphs.ScanEdges | NetKet/Graph/custom_graph.hpp:93-106 | fails exactly when some edge does not have two non-negative ends; otherwise finds the number of sites |
| CustomGraphs.AdjacencyListFromEdges | NetKet/Graph/custom_graph.hpp:88-114 | each site's neighbours are the other ends of its edges, in edge order |
| CustomGraphs.LargestUnique | NetKet/Graph/custom_graph.hpp:93-106 | the largest endpoint that the edge scan finds is the one Largest names, so the built adjacency list is EdgesList |
| CustomGraphs.AddEdgeStep | NetKet/Graph/custom_graph.hpp:109-112 | adding one edge extends both ends' lists by their contribution |
| CustomGraphs.EdgesAdjacencySymmetric | NetKet/Graph/custom_graph.hpp:88-114 | the list built from edges is in range and symmetric, with z a neighbour of x exactly when an edge joins them |
| CustomGraphs.RepeatedEdgeRejected | NetKet/Graph/custom_graph.cc:137-146 | a repeated edge or a self-loop makes the graph fail validation |
| CustomGraphs.CheckGraph | NetKet/Graph/custom_graph.cc:133-153 | passes exactly when every neighbour is in range and lists the site back exactly once, and every automorphism has one entry per site |
| CustomGraphs.GraphOkSymmetric | NetKet/Graph/custom_graph.cc:135-146 | a graph that passes validation is in range and symmetric |
| CustomGraphs.DefaultAutomorphisms | NetKet/Graph/custom_graph.cc:29-34 | the default symmetry table is the identity alone |
| CustomGraphs.ComputeConnected | NetKet/Graph/custom_graph.cc:155-161 | true exactly when every site is reachable from site 0 |
| CustomGraphs.VisitCount | NetKet/Graph/custom_graph.cc:157-160 | the search visits all sites exactly when all are reachable from 0 |
| CustomGraphs.ConnectedBothWays | NetKet/Graph/custom_graph.cc:155-161 | in a symmetric graph, reachable from 0 is the same as connected for every pair |
| CustomGraphs.CustomGraph.Init | NetKet/Graph/custom_graph.cc:92-130 | takes the list or builds size empty lists, defaults the automorphisms to the identity, and fails unless validation passes |
| CustomGraphs.CustomGraph.SymmetryTable | NetKet/Graph/custom_graph.hpp:69-71 | every automorphism has one entry per site |
| CustomGraphs.CustomGraph.Nsites | NetKet/Graph/custom_graph.hpp:73 | the number of sites is the length of the adjacency list |
| CustomGraphs.CustomGraph.AdjacencyList | NetKet/Graph/custom_graph.hpp:75-77 | the stored adjacency list is in range and symmetric |
| CustomGraphs.CustomGraph.IsConnected | NetKet/Graph/custom_graph.hpp:81 | true exactly when every pair of sites is connected |
| CustomGraphs.MakeCustomGraph | NetKet/Graph/custom_graph.hpp:118-177 | requires exactly one of AdjacencyList, Edges or Size, rejects Size < 1, and builds the graph from whichever is given; with exactly one option it succeeds exactly when the validation of the resulting adjacency list passes (for Edges, when every edge has two ends and the list EdgesList builds is valid), and the edge list's largest end is then nsites - 1 |
| GraphFunctions.SearchFrom | NetKet/Graph/graph_functions_impl.hpp:23-60 | the queue search visits nodes with non-decreasing depths equal to their distances, and reaches every unseen node within max_depth |
| GraphFunctions.VisitsAreDistances | NetKet/Graph/graph_functions_impl.hpp:47-57 | every reported depth is the shortest-path distance from the start |
| GraphFunctions.NearNodesVisited | NetKet/Graph/graph_functions_impl.hpp:53-57 | every node joined to the start by a path of at most max_depth steps through unseen nodes is visited |
| GraphFunctions.BreadthFirstSearchFrom | NetKet/Graph/graph_functions_impl.hpp:76-80 | visits the start first, each node once, in order of depth, at its true distance, and every node within max_depth |
| GraphFunctions.BreadthFirstSearch | Test/Graph/unit-graph.cc:50-66 | with max_depth = Nsites, visits exactly the nodes reachable from the start, at their distances |
| GraphFunctions.BreadthFirstSearchAll | NetKet/Graph/graph_functions_impl.hpp:62-74 | every node is visited once, labelled with the smallest node of its component, at its distance from that node |
| GraphFunctions.ComponentStep | NetKet/Graph/graph_functions_impl.hpp:65-73 | one outer iteration keeps the visited set closed and correctly labelled |
| GraphFunctions.Distances | NetKet/Graph/graph_functions_impl.hpp:82-91 | entry x is the distance from the root, or -1 exactly when x is unreachable |
| GraphFunctions.AllDistances | NetKet/Graph/graph_functions_impl.hpp:93-101 | row i is the distance row of site i |
| GraphFunctions.OddClosedWalk | NetKet/Graph/hypercube.hpp:76 | a graph with a closed walk of odd length is not bipartite |
| JsonDumps.VectorToJson | NetKet/Utils/json_dumps.hpp:27-34 | a vector becomes a JSON array of its entries, in order |
| JsonDumps.VectorFromJson | NetKet/Utils/json_dumps.hpp:36-43 | a JSON array of scalars becomes the vector of those scalars; anything else is a type error |
| JsonDumps.VectorRoundTrip | NetKet/Utils/json_dumps.hpp:27-43 | decoding an encoded vector gives the vector back |
| JsonDumps.VectorJsonOfDecoded | NetKet/Utils/json_dumps.hpp:27-43 | encoding a decoded vector gives the JSON back |
| JsonDumps.MatrixToJson | NetKet/Utils/json_dumps.hpp:45-56 | a matrix becomes an array of rows, each with one entry per column |
| JsonDumps.MatrixFromJsonAsWritten | NetKet/Utils/json_dumps.hpp:58-78 | the loader as written accepts exactly when the first row is non-empty and every non-empty row matches it |
| JsonDumps.RaggedAcceptedAsWritten | NetKet/Utils/json_dumps.hpp:64-77 | the ragged input [[x], []] is accepted as written although it is not rectangular |
| JsonDumps.MatrixFromJson | NetKet/Utils/json_dumps.hpp:58-78 | the corrected loader accepts exactly rectangular arrays with non-empty rows and returns them unchanged |
| JsonDumps.RowsRoundTrip | NetKet/Utils/json_dumps.hpp:45-78 | decoding encoded rows gives the rows back |
| JsonDumps.MatrixRoundTrip | NetKet/Utils/json_dumps.hpp:45-78 | saving and loading a non-empty matrix gives the same matrix |
| JsonDumps.ComplexFromJson | NetKet/Utils/json_dumps.hpp:88-95 | a scalar becomes a real complex number; an array needs two scalar entries, otherwise an error |
| JsonDumps.ComplexRoundTrip | NetKet/Utils/json_dumps.hpp:84-95 | loading a saved complex number gives it back |
| JsonDumps.ComplexFromArray | NetKet/Utils/json_dumps.hpp:88-92 | an array reads its first two entries as the real and imaginary parts |

## Left out

- Edge colours (`EdgeColors`, `EdgeColorsFromList`, `EdgeColorsFromAdj`) and the `InfoMessage` logging are not modelled; they do not affect the structures above.
- `GetGraph()` returns a reference to the graph; the model keeps only the number of sites it contributes.
- Hilbert indexing (`HilbertIndex`) and configuration indexing are not part of this model.
- Parameter parsing (`FieldVal`, `FieldExists`, the construction of a graph or a space by name) and the Python bindings are not modelled; their parsed values are the parameters of `New`/`Init`/`MakeCustomGraph`.
- Floating point: `double` and `std::complex<double>` are exact reals, so rounding is not modelled, and `std::pow` on integers is exact integer `Pow`.
- Random distributions are modelled by their range only; the modelled engine maps a stream of integers to draws, not the Mersenne twister or the exact distribution algorithms.
- The unused code after the hypercube class (the hypercube.cc helpers at 142-236 and the parameter constructor at hypercube.hpp:88-125) is not modelled.
- The single-source `BreadthFirstSearch(start, visitor)` overload lives in abstract_graph.hpp, which is not part of this model; `GraphFunctions.BreadthFirstSearch` assumes it passes `Nsites()` as the maximum depth.
- Bosons.Boson.RandomVals: the rejection loop of the constrained branch redraws a full site until it finds a free one; the model bounds the total number of draws by a `fuel` argument and fails when it runs out, so termination under a finite random stream is not claimed.
- Bosons.Boson.AddBosons: the same `fuel` bound applies to this loop, which the source runs until every boson is placed; on running out the model reports failure, so the success-only ensures say nothing about that case.
- Spins.Spin.RandomVals: for S above 1/2 with a constraint, the model requires that the target magnetisation be reachable; the source would then draw from an empty pool, which is undefined behaviour.
- LocalOperators.LocalOperator.New: the model requires at least one acting site, because the source takes the maximum of an empty list.
- CustomHamiltonians.CustomHamiltonian.New: for the same reason, the model requires that construction never reaches an empty ActingOn entry; an empty entry after a length mismatch or after a rejected pair is allowed, since the source stops first.
- JsonDumps.MatrixFromJson: the model requires a non-empty JSON array, because the source reads the first row of an empty one; `MatrixFromJsonAsWritten` carries the same requirement.
- CustomGraphs.CustomGraph.Init: the source runs the connectivity search before validating the graph, which is undefined behaviour when a neighbour is out of range or the graph has no sites. The model runs the search only on a list whose neighbours are in range and that has at least one site. A list with an out-of-range neighbour is then rejected by validation. An empty adjacency list passes validation: the model returns a graph with 0 sites whose connected flag is false, where the source would start the search at site 0 of zero sites.
- Integer width: `int` is unbounded, so overflow is not modelled in `nsites_ * nmax_` (bosons.hpp:97), in the `int tot` sum of occupations (bosons.hpp:137-140) or in `static_cast<int>(2 * totalS_)` (spins.hpp:120).
- JSON kinds: the modelled `Json<T>` holds only scalars of the element type and arrays, so the `type_error` paths for strings, booleans, null and objects (json_dumps.hpp:38, 61, 91, 93) cannot arise.
- CustomGraphs.CustomGraph.IsBipartite: the flag is whatever the caller passed, as in the source; nothing is proved about it.

## Findings

| source | as written | input that shows it | evidently intended | confidence | as-written member | corrected member |
|---|---|---|---|---|---|---|
| NetKet/Hamiltonian/local_operator.hpp:78-89 | the shape check compares a row's length with the side only when the row is non-empty | one spin-1/2 site and the matrix [[], [0, 0]]: it is accepted, and `AddConn` on the state of row 0 then reads `mat[0][0]` out of bounds | every row must have exactly side entries | not executed | LocalOperators.ShapeCheckAsWritten | LocalOperators.ConnectedColumns |
| NetKet/Utils/json_dumps.hpp:64-77 | only the first row is checked for being empty, and the length check sits inside the column loop, so a later empty row is never compared | the JSON [[x], []] is accepted as a 2 x 1 matrix whose second row is left uninitialised | every row must have the first row's non-zero length | not executed | JsonDumps.MatrixFromJsonAsWritten | JsonDumps.MatrixFromJson |
| NetKet/Graph/hypercube.hpp:76 | `IsBipartite` returns true for every hypercube | L = 3, ndim = 1, periodic: the ring 0-1-2-0 has an odd cycle | true exactly when the lattice is open or L is even | not executed | Hypercubes.Hypercube.IsBipartite | Hypercubes.Hypercube.Bipartite |
