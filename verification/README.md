# Grafo-Java, modelled in Dafny

Grafo-Java is a small Java library for undirected weighted graphs. It has three classes:

- **`Vertice`** is a vertex. It has a label (`etiqueta`), fixed at construction, and an `ArrayList` of its incident edges (`vecindad`), which is changed in place.
- **`Arista`** is an edge. It has two endpoint vertices, stored in canonical order: the endpoint whose label is not greater under `String.compareTo` comes first. It also has an `int` weight (`peso`), which can be changed.
- **`Grafo`** is the graph. It has two maps:
  - `vertices`, from label to vertex;
  - `aristas`, the edge registry. Each edge is stored under its `hashCode`, which is the `String.hashCode` of the two canonical labels concatenated.

The graph is consistent only while the registry and the adjacency lists inside the vertex objects agree. This model makes that agreement explicit as `Graphs.Grafo.Valid()`, which combines three predicates:

- `IndexOk`: every label maps to a vertex carrying that label.
- `RegistryOk`: every registered edge is stored under its own hash code and is canonical. It joins two differently labelled vertices and appears in both endpoints' lists.
- `ListsOk`: every list has no duplicates, and every edge in a list is registered and incident to the list's owner.

`Valid()` ranges over the ghost set `Verts`: the vertices whose lists the graph has touched. That is every vertex ever stored in `vertices` (a vertex removed by `eliminarVertice` stays in `Verts`) plus the endpoints of every edge it registered. The two sets differ because `insertarArista` never adds its vertices to `vertices`.

The project has five modules:

- `Errors`: `Result` and the two Java exceptions the code can raise.
- `JavaString`: `String.compareTo` as an explicit lexicographic comparison (Dafny's `<=` on strings is the prefix order), and `String.hashCode` with 32-bit wrap-around.
- `Sequences`: removal from a list by reference, filtering, and removal of map entries by value.
- `Elements`: the classes `Vertice` and `Arista`. They refer to each other, so they share one module.
- `Graphs`: the class `Grafo`.

Java's quirks are kept, not repaired:

- **Edges are compared by reference.** `Arista.equals(Arista)` overloads `Object.equals` instead of overriding it. So list membership and list removal compare references, and so does the `HashSet` in `getAristas`.
- **Registry keys can collide.** Two different pairs of labels can share a key.
- **A self-loop is rejected by label only.**
- **`insertarArista` does not register its vertices.**
- **The drain loops in `insertarVertice` and `eliminarVertice` never exit normally.** Their guard is always true, so each ends in `IndexOutOfBounds` once the list is empty. For an absent label, `eliminarVertice` ends in `NullPointer`.
- **`compareTo` returns a wrapped 32-bit difference.**

Exceptions become `Result` values or `Exception` return values. State changed before the exception is kept, as in Java. `null` results become `Arista?` and `Vertice?`.

## Model

| member | source | states |
|---|---|---|
| JavaString.Wrap32 | Arista.java:109 | the 32-bit narrowing of an int: the identity inside the int range, and otherwise a value that differs from the input by a multiple of 2^32 |
| JavaString.CompareTo | Arista.java:33 | `String.compareTo` on labels: zero exactly when the two strings are equal |
| JavaString.CompareToAntisymmetric | Arista.java:33 | comparing b with a gives the negation of comparing a with b |
| JavaString.CompareToTransitive | Arista.java:33 | `compareTo(a,b) <= 0` and `compareTo(b,c) <= 0` imply `compareTo(a,c) <= 0`, so the canonical endpoint order is a genuine order |
| JavaString.CompareToTotal | Arista.java:33 | any two labels are comparable one way or the other; two labels that are each at most the other are equal |
| JavaString.PrefixIsNotGreater | Arista.java:33 | a prefix is never greater under compareTo, which ties the lexicographic order to Dafny's prefix order in one direction |
| JavaString.HashCodeIsPolynomial | Arista.java:126 | the iterative hash `h = 31*h + c` equals the closed form `s[0]*31^(n-1) + ... + s[n-1]`, wrapped to 32 bits |
| JavaString.CollisionExtends | Arista.java:126 | two strings with equal hashes still collide after the same suffix is appended to both |
| JavaString.AaCollidesWithBB | Arista.java:126 | "Aa" and "BB" are different strings with the same hash code |
| Sequences.IndexOf | Vertice.java:71 | for an element of the list, the position of its first occurrence |
| Sequences.RemoveFirst | Vertice.java:69-72 | `ArrayList.remove(Object)`: a no-op when the element is absent |
| Sequences.RemoveFirstSplices | Vertice.java:69-72 | when the element is present, the result is the list before its first occurrence followed by the list after it, both in their original order |
| Sequences.RemoveFirstFacts | Vertice.java:69-72 | the other elements stay members; the length drops by one when the element was present; removing from a duplicate-free list leaves it duplicate-free and without the element |
| Sequences.Without | Grafo.java:154-155 | a list filtered by a set: every element of the result is in the list and outside the set, and every element of the list outside the set is in the result |
| Sequences.WithoutOneMore | Grafo.java:155 | removing one more element by reference from a filtered duplicate-free list is the same as filtering by the set extended with that element |
| Sequences.RemoveValuesFacts | Grafo.java:154-155 | the registry left by the drain loops, `RemoveValues(m, d)`: every kept entry is unchanged, a key is dropped only when its value is in `d`, and the remaining values are exactly the original values outside `d` |
| Sequences.RemoveOneMoreValue | Grafo.java:113 | removing the key that holds a value is the same as restricting by one more value, when the key is that value's only key |
| Sequences.InjectiveValuesCount | Grafo.java:195 | a map with no value under two keys has exactly as many distinct values as keys |
| Elements.RegistryKeySymmetric | Arista.java:124-127 | the registry key of a pair of labels does not depend on the order in which the pair is given |
| Elements.RegistryKeyCollides | Arista.java:124-127 | the key is not injective on pairs: {"A","BC"} and {"AB","C"} share a key, and so do {"Aa","x"} and {"BB","x"} |
| Elements.Canonical | Arista.java:33-42 | the canonical order of two endpoints: the first label is not greater than the second, and the pair is the given pair |
| Elements.CanonicalSwap | Arista.java:33-42 | swapping the arguments puts the same labels in the same places, and gives the very same pair when the labels differ |
| Elements.Vertice.constructor | Vertice.java:17-21 | the vertex has the given label and an empty list |
| Elements.Vertice.InsertarVecino | Vertice.java:28-32 | appends the edge exactly when that object is not already in the list, so a duplicate-free list stays duplicate-free |
| Elements.Vertice.ContieneUnVecino | Vertice.java:39-42 | true exactly when that very object is at some index of the list |
| Elements.Vertice.GetVecino | Vertice.java:48-51 | returns element `i` for `0 <= i < size`, and IndexOutOfBounds otherwise, without changing the list |
| Elements.Vertice.EliminarVecinoEn | Vertice.java:58-61 | removes and returns element `i`, with the later elements shifted left; out of range it fails with IndexOutOfBounds and changes nothing |
| Elements.Vertice.EliminarVecino | Vertice.java:69-72 | removes the first occurrence of that object; the size drops by one when it was present; a duplicate-free list loses the edge entirely |
| Elements.Vertice.Equals | Vertice.java:100-107 | equal vertices have equal hash codes, and null is equal to no vertex |
| Elements.Vertice.GetVecinos | Vertice.java:129-132 | returns a copy of the list, element by element, and leaves the vertex unchanged |
| Elements.Arista.constructor | Arista.java:31-46 | the endpoints are the two arguments in canonical order, the hash code is the registry key of the two labels, and the weight is as given |
| Elements.Arista.Unitaria | Arista.java:17-20 | as the three-argument constructor, with weight 1 |
| Elements.Arista.GetVecinoDe | Arista.java:56-64 | the second endpoint when the argument has the first endpoint's label (also when both endpoints share it); otherwise the first endpoint when the argument has the second's label; otherwise null |
| Elements.Arista.SetPeso | Arista.java:95-98 | only the weight changes; the endpoints are constant, so the hash code and `equals` do not change |
| Elements.Arista.CompareTo | Arista.java:107-110 | the weight difference wrapped to 32 bits: zero exactly when the weights are equal, and of the sign of the difference whenever that difference fits in an int |
| Elements.Arista.CompareByPeso | Arista.java:107-110 | the intended weight order: zero, negative or positive exactly as the weights are equal, smaller or larger |
| Elements.Arista.HashCode | Arista.java:124-127 | for a canonical edge, the registry key of its two labels |
| Elements.Arista.Equals | Arista.java:138-149 | equal edges have equal hash codes, and null is equal to no edge |
| Elements.VerticeEqualsIsEquivalence | Vertice.java:100-107 | vertex equality is reflexive, symmetric and transitive |
| Elements.CompareToOverflows | Arista.java:109 | with weights 2147483647 and -1, compareTo is negative although the first weight is larger; the corrected comparison is positive |
| Elements.EqualsIsSamePair | Arista.java:138-149 | two canonical edges are equal exactly when their endpoints have the same labels in the same places, whatever the weights |
| Elements.VecinoDeEndpoints | Arista.java:56-64 | the neighbour of the first endpoint is the second; the neighbour of the second is the first when the labels differ, and the second itself when they are equal |
| Graphs.IndexByLabel | Grafo.java:38-41 | putting each vertex of a list under its label gives a map with every label of the list, each mapped to a vertex of the list carrying that label, and the last vertex with a label wins |
| Graphs.Grafo.constructor | Grafo.java:20-24 | empty vertex map and empty registry, which is a consistent graph |
| Graphs.Grafo.DesdeLista | Grafo.java:33-43 | the vertex map built by putting the list's vertices in order, and an empty registry; consistent when the vertices have no edges |
| Graphs.Grafo.InsertarArista | Grafo.java:72-88 | succeeds exactly when the labels differ and the canonical pair's key is absent. On failure nothing changes. On success the registry gains exactly the new edge under its key, the same object is appended to both endpoints' lists, every other list and the vertex map are unchanged, and consistency is kept |
| Graphs.Grafo.Registrar | Grafo.java:84-86 | puts the edge under its key and appends it to both endpoints' lists, keeping consistency when the endpoints are free for this graph |
| Graphs.Grafo.InsertarAristaUnitaria | Grafo.java:54-57 | as `InsertarArista`, for a new edge of weight 1 |
| Graphs.Grafo.ContieneLaArista | Grafo.java:94-99 | true exactly when the edge's key is registered, whichever object or weight it has; in a consistent graph, true for any edge equal to a registered one |
| Graphs.Grafo.EliminarArista | Grafo.java:109-114 | removes the edge by reference from both endpoints' lists, removes its key from the registry and returns the entry it held, or null; other lists and the vertex map are unchanged; consistency is kept when the argument is the registered object or its key is absent |
| Graphs.Grafo.ContieneElVertice | Grafo.java:123-126 | true exactly when the vertex's label is in the map; the stored vertex is then equal to it |
| Graphs.Grafo.GetVertice | Grafo.java:132-135 | the vertex stored under the label, or null exactly when the label is absent |
| Graphs.Grafo.VerticeKeys | Grafo.java:185-188 | the set of labels in the vertex map |
| Graphs.Grafo.GetAristas | Grafo.java:193-196 | the set of registered edge objects; in a consistent graph it has as many elements as the registry has keys, and no edge is a self-loop |
| Graphs.Grafo.Vaciar | Grafo.java:154-155 | the drain loop: every edge of the vertex is removed from the registry and from every list, the vertex's list ends empty, no remaining edge touches the vertex, consistency is kept, and the loop ends in IndexOutOfBounds |
| Graphs.Grafo.QuitarPrimera | Grafo.java:155 | one round of the drain: removing a registered edge of the vertex shrinks the vertex's list by one, extends the set of removed edges and keeps consistency |
| Graphs.Grafo.VaciadoAlEmpezar | Grafo.java:154 | before the first round, the graph is the initial graph with no edge removed |
| Graphs.Grafo.SiguienteRonda | Grafo.java:155 | after removing one more edge, every list is the initial list filtered by the extended set, and the registry is the initial registry restricted by it |
| Graphs.Grafo.Drenado | Grafo.java:154-155 | once the vertex's list is empty, all its initial edges are gone from the registry and from every list |
| Graphs.Grafo.InsertarVertice | Grafo.java:146-161 | for an absent label, stores the vertex and returns true with the edges unchanged. For a present label without permission, returns false and changes nothing. For a present label with permission, drains the old vertex's edges and fails with IndexOutOfBounds before storing the new vertex. Only that draining branch needs a consistent graph. Consistency is kept when the graph was consistent and, for an absent label, the new vertex already belongs to the graph or has an empty list |
| Graphs.Grafo.EliminarVertice | Grafo.java:171-179 | removes the label from the map first. An absent label then fails with NullPointer and nothing else changes, whatever the graph's state. A present one drains the vertex's edges and fails with IndexOutOfBounds. Consistency is kept |
| Graphs.Grafo.InsertKeepsValid | Grafo.java:84-86 | registering a new canonical edge and appending it to both endpoints' lists keeps consistency, for endpoints that already belong to the graph or have empty lists |
| Graphs.Grafo.RemoveKeepsValid | Grafo.java:111-113 | removing the registered edge from both lists and its key from the registry keeps consistency; so does removing an absent key |
| Graphs.Grafo.RemovePresentKeepsRegistry | Grafo.java:111-113 | after removing a registered edge, every remaining registered edge is still canonical and in both endpoints' lists |
| Graphs.Grafo.RemovePresentKeepsLists | Grafo.java:111-113 | after removing a registered edge, every list is still duplicate-free and holds only registered incident edges |
| Graphs.ListedEdgeFacts | Grafo.java:84-86 | in a consistent graph, an edge in a vertex's list is registered, touches that vertex, joins two distinct touched vertices and is in no other list |
| Graphs.AdjacencyIsIncidence | Grafo.java:84-86 | in a consistent graph, an edge is in a vertex's list exactly when it is registered and incident to that vertex |
| Graphs.AtMostOneEdgePerPair | Grafo.java:79-80 | in a consistent graph, two registered edges joining the same pair of labels are the same object |
| Graphs.InsertarAlReves | Grafo.java:77-80 | after inserting (v1, v2), inserting (v2, v1) fails whatever the weights |
| Graphs.EliminarCopia | Grafo.java:109-114 | removing a new edge equal to a registered one deletes the registry entry but leaves the registered object in both lists, so consistency is lost |
| Graphs.InsertarColision | Grafo.java:79-80 | after inserting {"Aa","x"}, inserting {"BB","x"}, a different pair, fails on the colliding key |

## Left out

- `toString` of `Arista` and `Vertice` only formats strings, so it is not modelled.
- `MiGrafo` is a demonstration driver that prints to standard output, so it is not modelled.
- The getters `getEtiqueta`, `getVertice1`, `getVertice2` and `getPeso` are modelled as reads of the fields `etiqueta`, `vertice1`, `vertice2` and `peso`. The first three are `const` in the model, because the source never reassigns them after construction.
- `HashMap`, `HashSet` and `ArrayList` are modelled as Dafny maps, sets and sequences. Their capacity limits are not modelled, and neither is the `int` bound on a list's size.
- Graphs.Grafo.VerticeKeys: returns a value set. The Java code returns the map's live `keySet` view, and the aliasing of that view is not modelled.
- Graphs.Grafo.ContieneLaArista: the null test on the endpoints (Grafo.java:96-97) is not modelled. The model's endpoints are non-null references, so that branch cannot be taken.
- The null checks on arguments are not modelled. The model's parameters are non-null, so a Java `NullPointerException` on a null argument has no counterpart. The one null the code itself produces, the absent vertex in `eliminarVertice`, is modelled.
- Elements.Arista.Equals: `instanceof` is always true for a non-null `Arista`, so only the null case and the label comparison remain.
- Elements.Vertice.GetContarVecinos and Elements.Vertice.HashCode: plain accessors. They have no contract of their own. Their results are the list length and the label's `String.hashCode`, and `Elements.Vertice.Equals` states the hash agreement.
- JavaString.CompareTo and JavaString.HashCode: Dafny characters are Unicode scalar values, not UTF-16 code units. For labels outside the Basic Multilingual Plane, the comparison and the hash differ from Java's.
- Graphs.Grafo.Vaciar requires a consistent graph, and so do the draining branches of Graphs.Grafo.InsertarVertice (a present label with permission) and Graphs.Grafo.EliminarVertice (a present label). Without that, a listed edge that is not incident to the vertex makes the Java loop run forever, because removing it does not shorten the vertex's list. A listed edge that is incident but not the registered object (the state `Graphs.EliminarCopia` reaches) still lets the loop end, and `aristas.remove` then drops whatever entry shares its key; the model does not describe the drain from such a state. The branches that run no loop accept any graph state.
- Graphs.Grafo.InsertarVertice: for an absent label, consistency is promised only when the new vertex already belongs to the graph or has an empty list. A vertex that arrives listing edges this registry never saw makes the Java graph inconsistent as well.
- Graphs.Grafo.InsertarArista, Graphs.Grafo.InsertarAristaUnitaria and Graphs.Grafo.EliminarArista: their preservation of consistency is stated under conditions. For insertion, both endpoints must already belong to this graph or have empty lists. For removal, the argument must be the registered object or its key must be absent. Their effect on the state is stated for every input.
- Sharing a vertex object between two `Grafo` instances is only described by `Adoptable`: no lemma covers two graphs at once.

## Findings

| source | as written | input that shows it | evidently intended | confidence | as-written member | corrected member |
|---|---|---|---|---|---|---|
| Arista.java:107-110 | `compareTo` returns `this.peso - arista2.peso` in 32-bit arithmetic, which wraps around | weights 2147483647 and -1: the difference 2147483648 wraps to -2147483648, so the heavier edge compares as lighter | a result whose sign orders the edges by weight, as `Integer.compare` gives | not executed | Elements.Arista.CompareTo, Elements.CompareToOverflows | Elements.Arista.CompareByPeso |
