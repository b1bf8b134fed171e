# Fluid-circuit network, model and elements in Dafny

This project models the core of a small lumped-parameter fluid-circuit
package. Elements have a fixed number of ports. They are tied to each other
port to port. A network is meshed from a source element by breadth-first
traversal, which numbers the nodes of the circuit:

- every open port gets a Boundary node;
- every tie between two ports gets a Connection node, shared by both ends.

A model sizes its state vector from the mesh: a pressure and a mass flow per
node. It keeps boundary-condition tables. It assembles the steady-state
residual equations of all elements and refuses a system with the wrong number
of equations.

Three elements are modelled, each with its own steady-state residuals:

- the tee, which has three ports, equal pressures and a mass balance;
- the orifice plate, with N holes and a quadratic loss through loss
  coefficients Ko and Knet;
- the constant-area pipe, with the friction-factor formulas beside it.

The loss-coefficient algebra the pipe and orifice modules share is modelled
too: `K_from_Cd`, `dP_from_K`, `dP_from_Cd` and the squared form of
`mdot_from_K`.

How the model is built:

- Elements live in an arena (`Network.Arena`). An element is its index there.
  For each element the arena keeps a row of neighbour slots and a row of node
  slots, and these rows are what the source mutates in place.
  `Network.Network` holds the discovered elements and the node list, and
  meshes the arena.
- Element state that the source updates in place is a class. The orifice
  plate is one (its `set_Ko` and `set_Knet` setters). The model's tables are
  arrays.
- The tee is a datatype because the source never mutates it after
  construction. The pipe is a datatype because the only method that mutates
  it, `set_custom_K_curve`, is left out.
- Numbers are exact reals, so there is no floating-point rounding.
- Where the source raises, the model either returns an error outcome or has
  a precondition. Preconditions cover reading a port with no node, reading
  outside the state vector, dividing by zero, and using an orifice's loss
  before a coefficient is set.
- The notebook checkpoint of tee.py matches it line for line. The checkpoint
  of network.py has the same algorithm, with renamed classes (`Network`, `Element`,
  `Boundary`, `Connection`) and without the networkx and matplotlib imports.
  Both are modelled once, and the table cites the main file.
  The checkpoint of network.py (src/.ipynb_checkpoints/network-checkpoint.py)
  is shifted two lines up: `__init__` 14-15, `mesh` 19-46, the helpers 50-62,
  `mesh_checks` 66-74, `element` 104-126.
- The loss-coefficient helpers of pipe.py repeat, with the same bodies, in
  orifice-checkpoint.py (`K_from_Cd` 243-244, `dP_from_K` 248-249,
  `dP_from_Cd` 251-252, `mdot_from_K` 256-257) and pipe-checkpoint.py. They
  are modelled once in `LossCoefficients`. Pipe's constructor, `I` and
  `calc_K_friction` match in pipe-checkpoint.py at lines 29-56, 71-72 and
  148-149.
- pipe.py and its checkpoint differ in several places:
  - the checkpoint's friction formulas have no laminar branch;
  - the checkpoint has no `dP_body` and no `steady_flow_eqns`;
  - it has an extra `f_fit`;
  - it has a `moody` method where pipe.py has the method `moody_curve` and a
    module-level `moody`;
  - its class is named `pipe`;
  - its `calc_K_bend` differs.

  The model follows pipe.py. `Pipes.ColebrookIterate` is the checkpoint's
  Colebrook-White iteration, and `Pipes.ColebrookWhite` adds pipe.py's
  laminar branch.

Modules:

| file | module | models |
|---|---|---|
| wrappers.dfy | Wrappers | `Option`, `Result` |
| topology.dfy | Topology | port rows, node kinds, the well-formedness predicates of ties and meshes |
| meshing.dfy | Meshing | the loop invariant of `mesh` and one lemma per case of its loop body |
| network.dfy | Network | `element` (`__init__`, `tie_in`, `remove`) and `network` (`mesh`, its helpers, the node lists of `mesh_checks`) |
| statevector.dfy | StateVector | how element residuals read pressures and mass flows from the state vector |
| losses.dfy | LossCoefficients | circle area and the loss-coefficient conversions |
| tee.dfy | Tees | `Tee` |
| orifice.dfy | Orifices | `Orifice` |
| pipe.dfy | Pipes | `Pipe`, the laminar law, Colebrook-White, Churchill, `calc_K_friction` |
| model.dfy | FluidModel | `Model.__init__`, `add_BC`, `build_steady_system` |

## Model

| member | source | states |
|---|---|---|
| Network.Arena.NewElement | network.py:106-109 | the new element's id is the old arena size; its num_ports neighbour slots and node slots are all empty; no other element changes |
| Network.Arena.TieIn | network.py:112-114 | indices follow Python list indexing, so a negative index counts from the end; succeeds exactly when both port indices are in range; on success, self's port refers to the other element and the other's port to self; an out-of-range self index changes nothing; an out-of-range other index leaves the first write in place; node slots never change |
| Network.TieKeepsWellTied | network.py:112-114 | tying two open ports of two distinct elements not yet tied keeps every tie reciprocal, free of self-ties and single per pair of elements |
| Network.Arena.Remove | network.py:117-128 | when no port of e is tied to e: succeeds exactly when every port of e is tied; the neighbour rows become Detached(old, e, m), where m is e's first untied port; that clears e's first m slots and, in each element those ports were tied to, every slot referring back to e; node slots never change |
| Network.DetachStep | network.py:119-128 | one pass of the outer loop of `remove` extends the detachment from the first n ports to the first n+1 |
| Network.DetachedComplete | network.py:117-128 | after a complete removal, no slot anywhere refers to e, and the ties stay reciprocal and single |
| Network.Network.constructor | network.py:16-17 | constructing a network meshes it from the source: the result satisfies Meshed, stated under Mesh |
| Network.Network.Mesh | network.py:21-48 | Meshed: the elements start with the source, are distinct, and are closed under ties, so every element reachable from the source is included; they are listed in breadth-first discovery order; every port of every element has a node; an open port has a Boundary node of degree 1; the two ends of a tie share one Connection node of degree 2; elements not reached keep their node slots; ports total Boundary + 2*Connection. The input must be well tied and unmeshed (see Left out) |
| Network.Network.MeshElement | network.py:30-46 | processing every port of the element at the head of the queue, in order, keeps the mesher's invariant |
| Network.Network.MeshPort | network.py:30-46 | processing one port picks the case of the source (open, tied to a new element, or tied to a discovered element) and keeps the invariant |
| Network.Network.MeshOpenPort | network.py:33-34 | an open port gets a new Boundary node |
| Network.Network.MeshNewPort | network.py:37-42 | a neighbour not yet discovered is appended to the elements and the queue, and both ends of the tie get a new Connection node |
| Network.Network.MeshKnownPort | network.py:45-46 | a port tied to a discovered element that holds no node yet gets a new Connection node, shared with the port at the other end of the tie |
| Network.Network.UpdateBoundary | network.py:52-54 | appends one Boundary node and writes its index into port n of top and nowhere else |
| Network.Network.UpdateConnection | network.py:56-64 | appends one Connection node and writes its index into port n of top and into every port of the neighbour that is tied to top |
| Meshing.MarkBackSingle | network.py:62-64 | when ties are single, the back-marking loop of `update_connection` writes exactly one slot: the neighbour's port tied to top |
| Meshing.MeshStart | network.py:23-26 | the mesher's initial state (elements and queue hold only the source, no nodes) satisfies its invariant |
| Meshing.MeshBoundary | network.py:33-34 | the open-port case keeps the invariant, including the tally of ports against nodes |
| Meshing.MeshDiscover | network.py:37-42 | the new-neighbour case keeps the invariant, including breadth-first discovery order |
| Meshing.MeshClose | network.py:45-46 | the case of a known neighbour with no node yet keeps the invariant |
| Meshing.MeshSkip | network.py:45 | a port already given its node from the other end is skipped and the invariant holds |
| Meshing.MeshNext | network.py:48 | popping the head of the queue after all its ports keeps the invariant |
| Meshing.MeshFinish | network.py:27 | when the queue is empty, the invariant gives Meshed |
| Network.Network.NodeLists | network.py:68-76 | the first list holds exactly the indices of the Connection nodes, the second exactly those of the Boundary nodes, both ascending; together they count every node once |
| Network.KindIndicesExact | network.py:72-76 | an index is listed exactly when it is a node of that kind |
| Network.KindIndicesAscending | network.py:72-76 | the list is strictly increasing, so no node is listed twice |
| Network.KindIndicesCount | network.py:72-76 | the list is as long as the number of nodes of that kind |
| Topology.CountKindsCover | network.py:72-76 | every node is either a Connection or a Boundary node |
| LossCoefficients.CircleArea | src/pipe.py:50 | the area pi*d^2/4 is nonnegative, and positive for a nonzero diameter |
| LossCoefficients.KFromCd | src/pipe.py:269-270 | K is positive and K*Cd^2 == 1: K inverts the square of the discharge coefficient |
| LossCoefficients.DPFromK | src/pipe.py:274-275 | dP * 2*A^2*rho == K*mdot^2, where A is the area of diameter d; the drop is nonnegative for K >= 0 and rho > 0 |
| LossCoefficients.DPFromCd | src/pipe.py:277-278 | the drop through discharge coefficient Cd equals dP_from_K(K_from_Cd(Cd)) |
| LossCoefficients.DPFromKLinear | src/pipe.py:274-275 | the drop is linear in K, so the losses of coefficients in series add up |
| LossCoefficients.DPFromKQuadratic | src/pipe.py:274-275 | scaling the flow by s scales the drop by s^2, and reversing the flow leaves the drop unchanged |
| LossCoefficients.MassFlowFromDrop | src/pipe.py:282-283 | for the drop dP_from_K produces from mdot, A^2 * 2*dP*rho/K equals mdot^2: mdot_from_K recovers the flow up to its sign |
| Tees.NewTee | src/tee.py:18-24 | a three-port element is added to the arena whatever the configuration; the call succeeds exactly for "converging" and "diverging", storing the element id, the name and the configuration; any other configuration is an error (the source raises one fixed message; the `InvalidConfig(config)` payload carrying the rejected configuration is the model's own addition) |
| StateVector.Pressure | src/tee.py:32-34 | the pressure of a port is read at its node's index, so ports on the same node read the same pressure |
| StateVector.MassFlow | src/tee.py:35-37 | the mass flow of a port is read N_sv/2 past its node's index, so ports on the same node read the same flow |
| StateVector.MeshedReadable | src/tee.py:32-37 | on a meshed network with N_sv = 2*N_nodes entries, every port of every reached element can be read: its node index lies below N_sv/2, so its pressure sits in the first half of the state vector and its mass flow in the second |
| StateVector.SharedEntries | src/tee.py:32-37 | on a meshed network, ports of any two reached elements read the same pressure entry, and the same mass-flow entry, exactly when they sit on the same node; a pressure entry never coincides with a mass-flow entry, and ports on one node read equal pressure and equal flow |
| StateVector.TieEndsShareState | src/tee.py:32-37 | on a meshed network, the two ends of a tie belong to reached elements and read the same pressure and the same mass flow, since the tie's Connection node is shared |
| Tees.Residuals | src/tee.py:30-46 | three residuals, all zero exactly when the three port pressures are equal and the flow in at port 1 equals the flows out at ports 2 and 3 |
| Tees.ResidualsIgnoreFluidAndConfig | src/tee.py:30-46 | the residuals depend on neither the density nor the configuration |
| Tees.ResidualsOutletSymmetric | src/tee.py:39-46 | swapping outlet ports 2 and 3 does not change whether the residuals vanish |
| Orifices.Orifice.constructor | src/.ipynb_checkpoints/orifice-checkpoint.py:29-44 | adds a two-port element to the arena; stores name, diameter, length (default 0) and hole count (default 1); the area is pi*d^2/4; no loss coefficient is set yet |
| Orifices.Orifice.SetKo | src/.ipynb_checkpoints/orifice-checkpoint.py:54-56 | Ko is always stored; with N != 0, Knet*N^2 == Ko; with N == 0, the division fails after Ko is stored and Knet keeps its old value; for N != 0 the pair keeps Knet*N^2 == Ko |
| Orifices.Orifice.SetKnet | src/.ipynb_checkpoints/orifice-checkpoint.py:58-60 | stores Knet and Ko = Knet*N^2, keeping Knet*N^2 == Ko |
| Orifices.Orifice.Inertance | src/.ipynb_checkpoints/orifice-checkpoint.py:83-84 | I*Ao == rho*lo; it vanishes for the default length 0 and is nonnegative for nonnegative rho and lo |
| Orifices.Orifice.BodyLoad | src/.ipynb_checkpoints/orifice-checkpoint.py:93-94 | an orifice has no body load |
| Orifices.Orifice.Damping | src/.ipynb_checkpoints/orifice-checkpoint.py:88-89 | the loss is nonnegative for Ko >= 0 and rho > 0 |
| Orifices.DampingIsDPFromK | src/.ipynb_checkpoints/orifice-checkpoint.py:88-89 | the plate's loss for total flow mdot equals dP_from_K(Knet, mdot, d, rho): N holes with Ko each act as one hole with Knet |
| Orifices.DampingEven | src/.ipynb_checkpoints/orifice-checkpoint.py:88-89 | reversing the flow gives the same loss |
| Orifices.Orifice.Residuals | src/.ipynb_checkpoints/orifice-checkpoint.py:98-111 | two residuals, both zero exactly when the pressure at port 2 exceeds that at port 1 by the damping loss of the port-1 flow and the same flow passes both ports |
| Orifices.SteadyPressureRise | src/.ipynb_checkpoints/orifice-checkpoint.py:98-111 | at a zero of the residuals, with Ko >= 0 and rho > 0, the pressure at port 2 is at least that at port 1 |
| Pipes.NewPipe | src/pipe.py:30-57 | adds a two-port element to the arena; stores name, length, hydraulic diameter, roughness and the resistance model ("analytical" unless given); the area is pi*Dh^2/4 |
| Pipes.BodyLoad | src/pipe.py:108-109 | a pipe adds no body load to its momentum residual |
| Pipes.Inertance | src/pipe.py:74-75 | I*A == rho*l, nonnegative for nonnegative rho and l |
| Pipes.Residuals | src/pipe.py:114-127 | two residuals, both zero exactly when the pressure rises by the damping loss of the port-1 flow from port 1 to port 2 and the same flow passes both ports |
| Pipes.Laminar | src/pipe.py:145 | f*Re == 64, positive for positive Re |
| Pipes.ColebrookIterate | src/.ipynb_checkpoints/pipe-checkpoint.py:107-123 | the loop's result is the starting guess 0.05 with the update applied N times (4 by default) |
| Pipes.ColebrookWhite | src/pipe.py:135-154 | below Re 2100 the result is the laminar factor, so f*Re == 64; otherwise it is 0.05 updated N times (4 by default) |
| Pipes.Churchill | src/pipe.py:159-170 | below Re 2100 the laminar factor; otherwise the turbulent formula's value |
| Pipes.KFriction | src/pipe.py:228-235 | K*d == f*l |
| Pipes.KFrictionAdditive | src/pipe.py:228-235 | the friction loss of two runs of the same pipe in series is the sum of their losses |
| FluidModel.Model.constructor | src/.ipynb_checkpoints/model-checkpoint.py:26-48 | N_el and N_nodes are the circuit's counts and N_sv = 2*N_nodes; the four tables have one empty entry per node; the three N_sv x N_sv matrices are zero; no condition sits off a Boundary node |
| Topology.PyIndex | src/.ipynb_checkpoints/model-checkpoint.py:64-72 | Python list indexing: an index is accepted exactly when -n <= i < n, and a negative index counts from the end |
| FluidModel.WrittenAsIs | src/.ipynb_checkpoints/model-checkpoint.py:64-72 | the guard as written: only entry i can change, and it holds the value afterwards exactly when the node is not a Boundary node (or already held it) |
| FluidModel.WrittenIntended | src/.ipynb_checkpoints/model-checkpoint.py:62-72 | the intended guard: only entry i can change, and it holds the value afterwards exactly when the node is a Boundary node (or already held it) |
| FluidModel.Model.AddBC | src/.ipynb_checkpoints/model-checkpoint.py:62-75 | as written: an out-of-range node raises and writes nothing; a Boundary node is refused; on a Connection node, "pressure" writes only P_bc[node], "flowrate" writes only mdot_bc[node], and any other type writes nothing |
| FluidModel.WrittenAsIsOffBoundary | src/.ipynb_checkpoints/model-checkpoint.py:64-72 | the guard as written puts a condition on a Connection node, breaking "conditions only on Boundary nodes" |
| FluidModel.Model.AddBoundaryCondition | src/.ipynb_checkpoints/model-checkpoint.py:62-75 | as intended: same as AddBC, except that a node which is not a Boundary node is refused; the tables keep every condition on a Boundary node |
| FluidModel.WrittenIntendedOnBoundary | src/.ipynb_checkpoints/model-checkpoint.py:62-72 | the intended write keeps every condition on a Boundary node |
| FluidModel.Model.BuildSteadySystem | src/.ipynb_checkpoints/model-checkpoint.py:106-125 | the system is every element's equations, in element order, each at that element's density; fewer equations than N_sv is an error, more is the other error, and otherwise the system is returned with exactly N_sv equations |
| FluidModel.AssembledLength | src/.ipynb_checkpoints/model-checkpoint.py:109-113 | with one equation per port, the assembled system has one equation per port of the elements |
| FluidModel.SteadyGate | src/.ipynb_checkpoints/model-checkpoint.py:116-125 | on a meshed network with one equation per port, there are never more equations than N_sv, and exactly N_sv only when the mesh has no Boundary node |

## Left out

- Output and plotting are left out. This covers `mesh_checks`' printing, `view_BCs`, `print_steady_data`, `plot_steady_data`, `print_freq_domain_data`, `plot_freq_domain_data` and `moody`/`moody_curve`. They only print or draw. `mesh_checks` is modelled by the lists it builds (`NodeLists`).
- `steady_solve`, `build_dynamics_mats` and `eigen_solve` are left out. They call a numerical root finder and an eigensolver.
- Formulas built on sqrt, log10, fractional powers or trigonometry are left out: `Cd_from_K`, `mdot_from_Cd`, `calc_K_bend`, `calc_K_sharp`, `calc_K_rounded` and `calc_K_beveled`. `mdot_from_K` is stated only in squared form (`MassFlowFromDrop`).
- Pipes.ColebrookWhite: the Colebrook-White update is the parameter `step`, because it needs log10 and sqrt. The loop and the laminar branch are modelled.
- Pipes.Churchill: the turbulent value is the parameter `turbulent`. The checkpoint's `f_churchill` has no laminar branch, so it is that parameter itself.
- Pipes.Residuals: the pipe's damping law is the parameter `damping`. `Pipe.dP_damping` (src/pipe.py:80-88) takes three arguments and returns a friction loss coefficient f*l/Dh, not a pressure, yet `steady_flow_eqns` calls it with two. The call as written would raise.
- `Orifice.fit_K` and `Pipe.set_custom_K_curve` are left out. `fit_K` computes a coefficient per data point, takes their `np.mean`, and calls `set_Knet` with the wrong number of arguments. `set_custom_K_curve` sets `model` to "empirical" and then reads the undefined names `Re_vec` and `f_vec` (src/pipe.py:67-69), so it raises NameError after changing the model.
- The pipe's bend fields, which feed only `calc_K_bend`, are not modelled.
- fluid.py (densities and viscosities), the nozzle, reducer and manifold elements are not part of this model. `build_steady_system` takes the densities as a sequence, one per element.
- FluidModel.Model.BuildSteadySystem: each element's `steady_flow_eqns` at the current state vector is the parameter `eqns`. The source dispatches dynamically and reads densities through an undefined `self.fluids`.
- model-checkpoint.py does not import as written: line 16 is an incomplete `from` import.
- Element names are not stored in the arena, because nothing in the modelled behaviour reads them. `Tee.name`, `Orifice.name` and `Pipe.name` keep theirs.
- FluidModel.Model.constructor: the model keeps a snapshot of the circuit's elements and nodes, not the network object. The `TypeError` for a non-network argument is ruled out by the parameter's type.
- StateVector.MassFlow: the flow offset `N_sv/2` is Python true division and yields a float. Indexing `statevars` with a float raises in the source (IndexError on the NumPy array that `root` passes from `steady_solve`, src/.ipynb_checkpoints/model-checkpoint.py:135-138), so every mass-flow read, and with it every `steady_flow_eqns`, raises as written. The model reads at the integer N_sv/2 instead, a correction of the source rather than a copy.
- Element residuals: reading a port that has no node, or an index outside the state vector, raises in the source. These are preconditions here, and so are the divisions by a zero diameter, hole count, density or Reynolds number.
- Orifices.Orifice.Damping and Orifices.Orifice.Residuals require a set Ko (`ko.Some?`). Before `set_Ko` or `set_Knet` runs, the source has no `Ko` attribute and raises.
- Network.Network.Mesh and Network.Network.constructor require `MeshReady`: ties reciprocal, at most one tie between any two elements, no element tied to itself, and every node slot empty. Outside these inputs the source still runs. For example, two ties between the same two elements are merged by `update_connection`'s back-marking loop (network.py:62-64) onto one Connection node. The model does not describe such inputs.
- Floating point is left out: all quantities are exact reals, and pi is the constant 3.141592653589793.

## Findings

| source | as written | input that shows it | evidently intended | confidence | as-written member | corrected member |
|---|---|---|---|---|---|---|
| src/.ipynb_checkpoints/model-checkpoint.py:64-66 | `add_BC` returns early when the node IS a Boundary node and writes the condition on any other node | a network whose node 0 is a Connection node, empty tables, `add_BC("pressure", 0, 1.0)`: the condition is stored on the Connection node, and no Boundary node can ever receive a condition | refuse nodes that are not Boundary nodes, as the guard's comment and its "is not a boundary node" message say | high; not executed | FluidModel.Model.AddBC, FluidModel.WrittenAsIsOffBoundary | FluidModel.Model.AddBoundaryCondition, FluidModel.WrittenIntendedOnBoundary |
