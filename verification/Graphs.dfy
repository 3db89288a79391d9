/** The undirected weighted graph: a label-to-vertex map and an edge registry
    keyed by each edge's hash code, kept in lockstep with the adjacency lists
    held inside the vertex objects. */
module Graphs {
  import JavaString
  import opened Sequences
  import opened Errors
  import opened Elements

  /** The map that putting each vertex of `vs` under its label, in order,
      builds: every label present, and the last vertex with a label wins. */
  function IndexByLabel(vs: seq<Vertice>): (m: map<string, Vertice>)
    ensures m.Keys == set i | 0 <= i < |vs| :: vs[i].etiqueta
    ensures forall l | l in m :: m[l].etiqueta == l && m[l] in vs
    ensures forall i | 0 <= i < |vs| && (forall j | i < j < |vs| :: vs[j].etiqueta != vs[i].etiqueta) ::
      m[vs[i].etiqueta] == vs[i]
    decreases |vs|
  {
    if vs == [] then map[]
    else
      var init, last := vs[..|vs| - 1], vs[|vs| - 1];
      assert forall i | 0 <= i < |init| :: init[i] == vs[i];
      IndexByLabel(init)[last.etiqueta := last]
  }

  class Grafo {
    /** Label to vertex (HashMap<String, Vertice>). */
    var vertices: map<string, Vertice>
    /** Edge hash code to edge (HashMap<Integer, Arista>). */
    var aristas: map<int, Arista>
    /** The vertices whose adjacency lists this graph has touched: every
        vertex ever stored in `vertices` and the endpoints of every edge it
        registered. */
    ghost var Verts: set<Vertice>

    /** `e` is the object the registry holds under its key. */
    ghost predicate Registrada(e: Arista)
      reads this
    {
      e.HashCode() in aristas && aristas[e.HashCode()] == e
    }

    /** A vertex the graph may start using: already its own, or with an empty
        adjacency list (a vertex belongs to at most one graph). */
    ghost predicate Adoptable(v: Vertice)
      reads this, v
    {
      v in Verts || v.vecindad == []
    }

    /** Every label maps to a touched vertex carrying that label. */
    ghost predicate IndexOk()
      reads this
    {
      forall l | l in vertices :: vertices[l].etiqueta == l && vertices[l] in Verts
    }

    /** Every registered edge is stored under its own hash code, is canonical,
        joins two differently labelled touched vertices and appears in both
        endpoints' lists. */
    ghost predicate RegistryOk()
      reads this, Verts
    {
      forall k | k in aristas ::
        && aristas[k].HashCode() == k
        && aristas[k].Canonico()
        && aristas[k].vertice1.etiqueta != aristas[k].vertice2.etiqueta
        && aristas[k].vertice1 in Verts && aristas[k].vertice2 in Verts
        && aristas[k] in aristas[k].vertice1.vecindad
        && aristas[k] in aristas[k].vertice2.vecindad
    }

    /** Every touched vertex's list holds, once each, only registered edges
        incident to that vertex. */
    ghost predicate ListsOk()
      reads this, Verts
    {
      forall v | v in Verts ::
        && NoDup(v.vecindad)
        && forall e | e in v.vecindad :: Registrada(e) && (e.vertice1 == v || e.vertice2 == v)
    }

    /** The lockstep invariant between the label index, the edge registry and
        the adjacency lists. */
    ghost predicate Valid()
      reads this, Verts
    {
      IndexOk() && RegistryOk() && ListsOk()
    }

    /** The empty graph. */
    constructor ()
      ensures vertices == map[] && aristas == map[] && Verts == {}
      ensures Valid()
    {
      vertices := map[];
      aristas := map[];
      Verts := {};
    }

    /** A graph over a list of vertices: each label maps to the last vertex in
        the list with that label, and there are no edges. */
    constructor DesdeLista(vs: seq<Vertice>)
      ensures vertices == IndexByLabel(vs) && aristas == map[]
      ensures Verts == vertices.Values
      ensures (forall i | 0 <= i < |vs| :: vs[i].vecindad == []) ==> Valid()
    {
      var indice: map<string, Vertice> := map[];
      for i := 0 to |vs|
        invariant indice == IndexByLabel(vs[..i])
      {
        assert vs[..i + 1][..i] == vs[..i];
        indice := indice[vs[i].etiqueta := vs[i]];
      }
      assert vs[..|vs|] == vs;
      vertices := indice;
      aristas := map[];
      Verts := indice.Values;
    }

    /** insertarArista(v1, v2, peso). Fails on equal labels and on a key the
        registry already holds (the key of the pair, whatever its order and
        whatever weight is asked for). Otherwise registers one new edge and
        appends that same object to both endpoints' lists. */
    method InsertarArista(v1: Vertice, v2: Vertice, peso: JavaString.Int32) returns (ok: bool)
      modifies this, v1, v2
      ensures ok <==> v1.etiqueta != v2.etiqueta && RegistryKey(v1.etiqueta, v2.etiqueta) !in old(aristas)
      ensures vertices == old(vertices)
      ensures Verts == if ok then old(Verts) + {v1, v2} else old(Verts)
      ensures !ok ==> aristas == old(aristas) && v1.vecindad == old(v1.vecindad) && v2.vecindad == old(v2.vecindad)
      ensures ok ==>
        var k := RegistryKey(v1.etiqueta, v2.etiqueta);
        && k in aristas
        && var e := aristas[k];
        && aristas == old(aristas)[k := e]
        && fresh(e) && e.peso == peso && e.Canonico() && {e.vertice1, e.vertice2} == {v1, v2}
        && v1.vecindad == old(v1.vecindad) + [e]
        && v2.vecindad == old(v2.vecindad) + [e]
      ensures old(Valid() && Adoptable(v1) && Adoptable(v2)) ==> Valid()
    {
      if v1.Equals(v2) {
        return false;
      }
      var arista := new Arista(v1, v2, peso);
      assert old(Valid() && Adoptable(v1) && Adoptable(v2)) ==> Valid() && Adoptable(v1) && Adoptable(v2);
      var clave := arista.HashCode();
      if clave in aristas {
        return false;
      }
      var repetida := v1.ContieneUnVecino(arista);
      if !repetida {
        repetida := v2.ContieneUnVecino(arista);
      }
      if repetida {
        return false;
      }
      Registrar(arista, v1, v2);
      ok := true;
    }

    /** The put and the two list appends that end a successful insertarArista. */
    method Registrar(arista: Arista, v1: Vertice, v2: Vertice)
      requires arista.Canonico() && {arista.vertice1, arista.vertice2} == {v1, v2} && v1.etiqueta != v2.etiqueta
      requires arista.HashCode() !in aristas && arista !in v1.vecindad && arista !in v2.vecindad
      modifies this, v1, v2
      ensures aristas == old(aristas)[arista.HashCode() := arista]
      ensures vertices == old(vertices) && Verts == old(Verts) + {v1, v2}
      ensures v1.vecindad == old(v1.vecindad) + [arista]
      ensures v2.vecindad == old(v2.vecindad) + [arista]
      ensures old(Valid() && Adoptable(v1) && Adoptable(v2)) ==> Valid()
    {
      aristas := aristas[arista.HashCode() := arista];
      v1.InsertarVecino(arista);
      v2.InsertarVecino(arista);
      Verts := Verts + {v1, v2};
      if old(Valid() && Adoptable(v1) && Adoptable(v2)) {
        InsertKeepsValid(arista);
      }
    }

    /** insertarArista(v1, v2): the same with weight 1. */
    method InsertarAristaUnitaria(v1: Vertice, v2: Vertice) returns (ok: bool)
      modifies this, v1, v2
      ensures ok <==> v1.etiqueta != v2.etiqueta && RegistryKey(v1.etiqueta, v2.etiqueta) !in old(aristas)
      ensures vertices == old(vertices)
      ensures Verts == if ok then old(Verts) + {v1, v2} else old(Verts)
      ensures !ok ==> aristas == old(aristas) && v1.vecindad == old(v1.vecindad) && v2.vecindad == old(v2.vecindad)
      ensures ok ==>
        var k := RegistryKey(v1.etiqueta, v2.etiqueta);
        && k in aristas
        && var e := aristas[k];
        && aristas == old(aristas)[k := e]
        && fresh(e) && e.peso == 1 && e.Canonico() && {e.vertice1, e.vertice2} == {v1, v2}
        && v1.vecindad == old(v1.vecindad) + [e]
        && v2.vecindad == old(v2.vecindad) + [e]
      ensures old(Valid() && Adoptable(v1) && Adoptable(v2)) ==> Valid()
    {
      ok := InsertarArista(v1, v2, 1);
    }

    /** contieneLaArista: a registry lookup by key, so any edge object with the
        same pair of labels (or a colliding key) answers true. */
    method ContieneLaArista(arista: Arista) returns (b: bool)
      ensures b <==> arista.HashCode() in aristas
      ensures arista.Canonico() ==> (b <==> RegistryKey(arista.vertice1.etiqueta, arista.vertice2.etiqueta) in aristas)
      ensures Valid() ==> forall k | k in aristas :: aristas[k].Equals(arista) ==> b
    {
      b := arista.HashCode() in aristas;
    }

    /** eliminarArista: removes `arista` by reference from both endpoints'
        lists and removes whatever the registry holds under its key. */
    method EliminarArista(arista: Arista) returns (r: Arista?)
      modifies this, arista.vertice1, arista.vertice2
      ensures r == if arista.HashCode() in old(aristas) then old(aristas)[arista.HashCode()] else null
      ensures aristas == old(aristas) - {arista.HashCode()}
      ensures vertices == old(vertices) && Verts == old(Verts)
      ensures arista.vertice1 != arista.vertice2 ==>
        && arista.vertice1.vecindad == RemoveFirst(old(arista.vertice1.vecindad), arista)
        && arista.vertice2.vecindad == RemoveFirst(old(arista.vertice2.vecindad), arista)
      ensures arista.vertice1 == arista.vertice2 ==>
        arista.vertice1.vecindad == RemoveFirst(RemoveFirst(old(arista.vertice1.vecindad), arista), arista)
      ensures forall w | w in Verts && w != arista.vertice1 && w != arista.vertice2 :: w.vecindad == old(w.vecindad)
      ensures old(Valid()) && (arista.HashCode() in old(aristas) ==> old(Registrada(arista))) ==> Valid()
    {
      ghost var era := Valid() && (arista.HashCode() in aristas ==> Registrada(arista));
      arista.vertice1.EliminarVecino(arista);
      arista.vertice2.EliminarVecino(arista);
      var clave := arista.HashCode();
      r := if clave in aristas then aristas[clave] else null;
      aristas := aristas - {clave};
      if era {
        RemoveKeepsValid(arista);
      }
    }

    /** contieneElVertice: lookup by label, not by reference. */
    method ContieneElVertice(vertice: Vertice) returns (b: bool)
      ensures b <==> vertice.etiqueta in vertices
      ensures Valid() && b ==> vertices[vertice.etiqueta].Equals(vertice)
    {
      b := vertice.etiqueta in vertices;
    }

    /** getVertice: the vertex stored under the label, or null. */
    method GetVertice(etiqueta: string) returns (r: Vertice?)
      ensures r == null <==> etiqueta !in vertices
      ensures r != null ==> r == vertices[etiqueta]
      ensures r != null && Valid() ==> r.etiqueta == etiqueta
    {
      r := if etiqueta in vertices then vertices[etiqueta] else null;
    }

    /** verticeKeys: the labels of the stored vertices. */
    method VerticeKeys() returns (ks: set<string>)
      ensures ks == vertices.Keys
      ensures Valid() ==> forall l | l in ks :: vertices[l].etiqueta == l
    {
      ks := vertices.Keys;
    }

    /** getAristas: the registered edge objects, one per registry entry. */
    method GetAristas() returns (es: set<Arista>)
      ensures es == aristas.Values
      ensures Valid() ==> |es| == |aristas|
      ensures Valid() ==> forall e | e in es :: e.vertice1.etiqueta != e.vertice2.etiqueta
    {
      es := aristas.Values;
      if Valid() {
        assert RegistryOk();
        forall a, b | a in aristas && b in aristas && aristas[a] == aristas[b] ensures a == b {
          assert aristas[a].HashCode() == a && aristas[b].HashCode() == b;
        }
        InjectiveValuesCount(aristas);
        forall e | e in es ensures e.vertice1.etiqueta != e.vertice2.etiqueta {
          var k :| k in aristas && aristas[k] == e;
          assert aristas[k].vertice1.etiqueta != aristas[k].vertice2.etiqueta;
        }
      }
    }

    /** The drain loop of insertarVertice and eliminarVertice: while the
        vertex's list size is >= 0 (always), remove its edge at position 0
        through eliminarArista. When the list is empty, getVecino(0) throws, so
        the loop ends only by that exception, every incident edge gone. */
    method Vaciar(vertice: Vertice) returns (fallo: Exception)
      requires Valid() && vertice in Verts
      modifies this, Verts
      ensures Valid()
      ensures fallo == IndexOutOfBounds
      ensures vertices == old(vertices) && Verts == old(Verts)
      ensures vertice.vecindad == []
      ensures aristas == RemoveValues(old(aristas), set e | e in old(vertice.vecindad))
      ensures forall w | w in Verts :: w.vecindad == Without(old(w.vecindad), set e | e in old(vertice.vecindad))
      ensures forall k | k in aristas :: aristas[k].vertice1 != vertice && aristas[k].vertice2 != vertice
    {
      ghost var inicial := map w | w in Verts :: w.vecindad;
      ghost var incidentes := set e | e in inicial[vertice];
      ghost var quitadas: set<Arista> := {};
      VaciadoAlEmpezar(inicial);
      var n := vertice.GetContarVecinos();
      while n >= 0
        invariant Valid() && vertice in Verts
        invariant vertices == old(vertices) && Verts == old(Verts)
        invariant n == |vertice.vecindad|
        invariant quitadas <= incidentes
        invariant Vaciado(inicial, old(aristas), quitadas)
        decreases |vertice.vecindad|
      {
        var siguiente := vertice.GetVecino(0);
        if siguiente.Throws? {
          Drenado(vertice, inicial, old(aristas), quitadas);
          return siguiente.exception;
        }
        var arista := siguiente.value;
        assert arista in Without(inicial[vertice], quitadas);
        ListedEdgeFacts(this, vertice, arista);
        QuitarPrimera(vertice, arista, inicial, old(aristas), quitadas);
        quitadas := quitadas + {arista};
        n := vertice.GetContarVecinos();
      }
    }

    /** The drain loop's invariant: every touched list is its initial content
        with the removed edges filtered out, and the registry is the initial
        one without the entries holding them. */
    ghost predicate Vaciado(inicial: map<Vertice, seq<Arista>>, base: map<int, Arista>, quitadas: set<Arista>)
      reads this, Verts
    {
      && (forall w | w in Verts :: w in inicial && w.vecindad == Without(inicial[w], quitadas))
      && aristas == RemoveValues(base, quitadas)
      && (forall k | k in base :: base[k].HashCode() == k)
    }

    /** Before the first round nothing is removed. */
    lemma VaciadoAlEmpezar(inicial: map<Vertice, seq<Arista>>)
      requires Valid() && inicial == map w | w in Verts :: w.vecindad
      ensures Vaciado(inicial, aristas, {})
    {
      forall w | w in Verts ensures w.vecindad == Without(inicial[w], {}) {
        WithoutNothing(w.vecindad);
      }
      RemoveValuesNothing(aristas);
      assert RegistryOk();
    }

    /** One round of the drain loop: eliminarArista on a registered edge the
        vertex lists. */
    method QuitarPrimera(vertice: Vertice, arista: Arista, ghost inicial: map<Vertice, seq<Arista>>,
                         ghost base: map<int, Arista>, ghost quitadas: set<Arista>)
      requires Registrada(arista) && arista in vertice.vecindad
      requires vertice == arista.vertice1 || vertice == arista.vertice2
      requires arista.vertice1 != arista.vertice2 && arista.vertice1 in Verts && arista.vertice2 in Verts
      requires forall w | w in Verts :: NoDup(w.vecindad)
      requires forall w | w in Verts && arista in w.vecindad :: w == arista.vertice1 || w == arista.vertice2
      requires Vaciado(inicial, base, quitadas)
      modifies this, Verts
      ensures vertices == old(vertices) && Verts == old(Verts)
      ensures Vaciado(inicial, base, quitadas + {arista})
      ensures |vertice.vecindad| == old(|vertice.vecindad|) - 1
      ensures old(Valid()) ==> Valid()
    {
      var v1, v2 := arista.vertice1, arista.vertice2;
      ghost var antes := map w | w in Verts :: w.vecindad;
      ghost var objetivo := map w | w in Verts :: Without(inicial[w], quitadas + {arista});
      SiguienteRonda(arista, inicial, base, quitadas);
      RemoveFirstFacts(vertice.vecindad, arista);
      var _ := EliminarArista(arista);
      forall w | w in Verts ensures w.vecindad == objetivo[w] {
        if w != v1 && w != v2 {
          assert w.vecindad == antes[w];
        }
      }
    }

    /** What one more round of the drain loop must produce: each touched list
        loses the edge if it is an endpoint's and is otherwise unchanged, and
        the registry loses the edge's key. */
    lemma SiguienteRonda(arista: Arista, inicial: map<Vertice, seq<Arista>>,
                         base: map<int, Arista>, quitadas: set<Arista>)
      requires Registrada(arista)
      requires forall w | w in Verts :: NoDup(w.vecindad)
      requires forall w | w in Verts && arista in w.vecindad :: w == arista.vertice1 || w == arista.vertice2
      requires Vaciado(inicial, base, quitadas)
      ensures forall w | w in Verts ::
        Without(inicial[w], quitadas + {arista}) ==
          if w == arista.vertice1 || w == arista.vertice2 then RemoveFirst(w.vecindad, arista) else w.vecindad
      ensures RemoveValues(base, quitadas + {arista}) == aristas - {arista.HashCode()}
    {
      forall w | w in Verts
        ensures Without(inicial[w], quitadas + {arista}) ==
          if w == arista.vertice1 || w == arista.vertice2 then RemoveFirst(w.vecindad, arista) else w.vecindad
      {
        WithoutOneMore(inicial[w], quitadas, arista);
      }
      var k := arista.HashCode();
      assert k in base && base[k] == arista by {
        assert aristas[k] == arista && aristas == RemoveValues(base, quitadas);
      }
      forall j | j in base && base[j] == arista ensures j == k {
        assert base[j].HashCode() == j;
      }
      RemoveOneMoreValue(base, quitadas, k, arista);
    }

    /** When the vertex's list is empty the loop has removed every edge it
        listed at the start, and no registered edge touches it any more. */
    lemma Drenado(vertice: Vertice, inicial: map<Vertice, seq<Arista>>, base: map<int, Arista>, quitadas: set<Arista>)
      requires Valid() && vertice in Verts && vertice.vecindad == []
      requires Vaciado(inicial, base, quitadas) && quitadas <= set e | e in inicial[vertice]
      ensures aristas == RemoveValues(base, set e | e in inicial[vertice])
      ensures forall w | w in Verts :: w.vecindad == Without(inicial[w], set e | e in inicial[vertice])
      ensures forall k | k in aristas :: aristas[k].vertice1 != vertice && aristas[k].vertice2 != vertice
    {
      assert Without(inicial[vertice], quitadas) == [];
      assert quitadas == set e | e in inicial[vertice];
      assert RegistryOk();
    }

    /** insertarVertice. An absent label: the vertex is stored and true is
        returned. A present label without permission: false, nothing changes.
        A present label with permission: the old vertex's edges are drained and
        the call ends in IndexOutOfBounds before the new vertex is stored. */
    method InsertarVertice(vertice: Vertice, sobreescribe: bool) returns (r: Result<bool>)
      requires vertice.etiqueta in vertices && sobreescribe ==> Valid()
      modifies this, Verts
      ensures vertice.etiqueta !in old(vertices) ==>
        && r == Ok(true)
        && vertices == old(vertices)[vertice.etiqueta := vertice]
        && aristas == old(aristas)
        && Verts == old(Verts) + {vertice}
      ensures vertice.etiqueta in old(vertices) ==> vertices == old(vertices) && Verts == old(Verts)
      ensures vertice.etiqueta in old(vertices) && !sobreescribe ==> r == Ok(false) && aristas == old(aristas)
      ensures vertice.etiqueta !in old(vertices) || !sobreescribe ==>
        forall w | w in old(Verts) :: w.vecindad == old(w.vecindad)
      ensures vertice.etiqueta in old(vertices) && sobreescribe ==>
        var actual := old(vertices)[vertice.etiqueta];
        && r == Throws(IndexOutOfBounds)
        && actual.vecindad == []
        && aristas == RemoveValues(old(aristas), set e | e in old(actual.vecindad))
        && (forall w | w in Verts :: w.vecindad == Without(old(w.vecindad), set e | e in old(actual.vecindad)))
      ensures old(Valid()) && (vertice.etiqueta in old(vertices) || old(Adoptable(vertice))) ==> Valid()
    {
      var actual := if vertice.etiqueta in vertices then vertices[vertice.etiqueta] else null;
      if actual != null {
        if !sobreescribe {
          return Ok(false);
        }
        var fallo := Vaciar(actual);
        return Throws(fallo);
      }
      vertices := vertices[vertice.etiqueta := vertice];
      Verts := Verts + {vertice};
      r := Ok(true);
    }

    /** eliminarVertice. The entry is removed first; an absent label then
        fails on null, a present one drains the vertex's edges and ends in
        IndexOutOfBounds, so the removed vertex is never returned. */
    method EliminarVertice(etiqueta: string) returns (r: Result<Vertice>)
      requires etiqueta in vertices ==> Valid()
      modifies this, Verts
      ensures old(Valid()) ==> Valid()
      ensures vertices == old(vertices) - {etiqueta} && Verts == old(Verts)
      ensures etiqueta !in old(vertices) ==>
        && r == Throws(NullPointer)
        && aristas == old(aristas)
        && forall w | w in Verts :: w.vecindad == old(w.vecindad)
      ensures etiqueta in old(vertices) ==>
        var vertice := old(vertices)[etiqueta];
        && r == Throws(IndexOutOfBounds)
        && vertice.vecindad == []
        && aristas == RemoveValues(old(aristas), set e | e in old(vertice.vecindad))
        && (forall w | w in Verts :: w.vecindad == Without(old(w.vecindad), set e | e in old(vertice.vecindad)))
        && (forall k | k in aristas :: aristas[k].vertice1 != vertice && aristas[k].vertice2 != vertice)
    {
      var vertice := if etiqueta in vertices then vertices[etiqueta] else null;
      vertices := vertices - {etiqueta};
      if vertice == null {
        return Throws(NullPointer);
      }
      var fallo := Vaciar(vertice);
      return Throws(fallo);
    }

    /** Adding an unlisted edge under a free key to both endpoints' lists
        keeps the lockstep, provided both endpoints are adoptable. */
    twostate lemma InsertKeepsValid(arista: Arista)
      requires old(Valid())
      requires old(Adoptable(arista.vertice1)) && old(Adoptable(arista.vertice2))
      requires arista.Canonico() && arista.vertice1.etiqueta != arista.vertice2.etiqueta
      requires arista !in old(arista.vertice1.vecindad) && arista !in old(arista.vertice2.vecindad)
      requires arista.HashCode() !in old(aristas) && aristas == old(aristas)[arista.HashCode() := arista]
      requires vertices == old(vertices)
      requires Verts == old(Verts) + {arista.vertice1, arista.vertice2}
      requires arista.vertice1.vecindad == old(arista.vertice1.vecindad) + [arista]
      requires arista.vertice2.vecindad == old(arista.vertice2.vecindad) + [arista]
      requires forall w | w in old(Verts) && w != arista.vertice1 && w != arista.vertice2 :: w.vecindad == old(w.vecindad)
      ensures Valid()
    {
      var v1, v2 := arista.vertice1, arista.vertice2;
      forall v | v in Verts
        ensures NoDup(v.vecindad)
        ensures forall e | e in v.vecindad :: Registrada(e) && (e.vertice1 == v || e.vertice2 == v)
      {
        if v == v1 || v == v2 {
          var s := old(v.vecindad);
          assert v.vecindad == s + [arista];
          forall e | e in s ensures Registrada(e) && (e.vertice1 == v || e.vertice2 == v) {
            assert v in old(Verts);
            assert old(Registrada(e));
          }
        } else {
          forall e | e in v.vecindad ensures Registrada(e) {
            assert old(Registrada(e));
          }
        }
      }
    }

    /** Removing the registered object from both endpoints' lists and from the
        registry keeps the lockstep; so does removing an absent key. */
    twostate lemma RemoveKeepsValid(arista: Arista)
      requires old(Valid())
      requires arista.HashCode() in old(aristas) ==> old(Registrada(arista))
      requires aristas == old(aristas) - {arista.HashCode()}
      requires vertices == old(vertices) && Verts == old(Verts)
      requires arista.vertice1 != arista.vertice2 ==>
        && arista.vertice1.vecindad == RemoveFirst(old(arista.vertice1.vecindad), arista)
        && arista.vertice2.vecindad == RemoveFirst(old(arista.vertice2.vecindad), arista)
      requires arista.vertice1 == arista.vertice2 ==>
        arista.vertice1.vecindad == RemoveFirst(RemoveFirst(old(arista.vertice1.vecindad), arista), arista)
      requires forall w | w in Verts && w != arista.vertice1 && w != arista.vertice2 :: w.vecindad == old(w.vecindad)
      ensures Valid()
    {
      if arista.HashCode() in old(aristas) {
        assert arista.vertice1 != arista.vertice2;
        RemovePresentKeepsRegistry(arista);
        RemovePresentKeepsLists(arista);
      } else {
        forall v | v in Verts ensures v.vecindad == old(v.vecindad) {
          assert arista !in old(v.vecindad);
        }
      }
    }

    /** The registry half of RemoveKeepsValid, for a registered edge. */
    twostate lemma RemovePresentKeepsRegistry(arista: Arista)
      requires old(RegistryOk()) && old(Registrada(arista)) && arista.vertice1 != arista.vertice2
      requires aristas == old(aristas) - {arista.HashCode()} && Verts == old(Verts)
      requires arista.vertice1.vecindad == RemoveFirst(old(arista.vertice1.vecindad), arista)
      requires arista.vertice2.vecindad == RemoveFirst(old(arista.vertice2.vecindad), arista)
      requires forall w | w in Verts && w != arista.vertice1 && w != arista.vertice2 :: w.vecindad == old(w.vecindad)
      ensures RegistryOk()
    {
      var v1, v2 := arista.vertice1, arista.vertice2;
      forall k | k in aristas
        ensures aristas[k] in aristas[k].vertice1.vecindad && aristas[k] in aristas[k].vertice2.vecindad
      {
        var e := old(aristas)[k];
        assert aristas[k] == e && e.HashCode() == k && e != arista;
        assert e in old(e.vertice1.vecindad) && e in old(e.vertice2.vecindad);
        RemoveFirstFacts(old(v1.vecindad), arista);
        RemoveFirstFacts(old(v2.vecindad), arista);
      }
    }

    /** The adjacency-list half of RemoveKeepsValid, for a registered edge. */
    twostate lemma RemovePresentKeepsLists(arista: Arista)
      requires old(ListsOk()) && old(Registrada(arista)) && arista.vertice1 != arista.vertice2
      requires aristas == old(aristas) - {arista.HashCode()} && Verts == old(Verts)
      requires arista.vertice1.vecindad == RemoveFirst(old(arista.vertice1.vecindad), arista)
      requires arista.vertice2.vecindad == RemoveFirst(old(arista.vertice2.vecindad), arista)
      requires forall w | w in Verts && w != arista.vertice1 && w != arista.vertice2 :: w.vecindad == old(w.vecindad)
      ensures ListsOk()
    {
      var v1, v2 := arista.vertice1, arista.vertice2;
      forall v | v in Verts
        ensures NoDup(v.vecindad)
        ensures forall e | e in v.vecindad :: Registrada(e) && (e.vertice1 == v || e.vertice2 == v)
      {
        RemoveFirstFacts(old(v.vecindad), arista);
        forall e | e in v.vecindad ensures Registrada(e) {
          assert e in old(v.vecindad) && e != arista;
          assert old(Registrada(e));
        }
      }
    }
  }

  /** An edge listed by a touched vertex is registered, is incident to it and
      joins two distinct touched vertices. */
  lemma ListedEdgeFacts(g: Grafo, v: Vertice, e: Arista)
    requires g.Valid() && v in g.Verts && e in v.vecindad
    ensures g.Registrada(e) && (e.vertice1 == v || e.vertice2 == v)
    ensures e.vertice1 in g.Verts && e.vertice2 in g.Verts && e.vertice1 != e.vertice2
    ensures forall w | w in g.Verts && e in w.vecindad :: w == e.vertice1 || w == e.vertice2
  {
    assert g.ListsOk() && g.RegistryOk();
    assert g.aristas[e.HashCode()] == e;
  }

  /** An edge lies in a touched vertex's list exactly when it is registered
      and has that vertex as an endpoint. */
  lemma AdjacencyIsIncidence(g: Grafo, v: Vertice, e: Arista)
    requires g.Valid() && v in g.Verts
    ensures e in v.vecindad <==> g.Registrada(e) && (e.vertice1 == v || e.vertice2 == v)
  {
    if g.Registrada(e) && (e.vertice1 == v || e.vertice2 == v) {
      assert e == g.aristas[e.HashCode()];
    }
  }

  /** At most one registered edge per unordered pair of labels. */
  lemma AtMostOneEdgePerPair(g: Grafo, e1: Arista, e2: Arista)
    requires g.Valid() && g.Registrada(e1) && g.Registrada(e2)
    requires multiset{e1.vertice1.etiqueta, e1.vertice2.etiqueta} == multiset{e2.vertice1.etiqueta, e2.vertice2.etiqueta}
    ensures e1 == e2
  {
    assert e1 == g.aristas[e1.HashCode()] && e2 == g.aristas[e2.HashCode()];
    EqualsIsSamePair(e2, e1);
  }

  /** Inserting the same pair the other way round, with any weight, fails:
      the key does not depend on the order of the endpoints. */
  method InsertarAlReves(g: Grafo, v1: Vertice, v2: Vertice, p1: JavaString.Int32, p2: JavaString.Int32)
    returns (primero: bool, segundo: bool)
    modifies g, v1, v2
    ensures primero ==> !segundo
  {
    primero := g.InsertarArista(v1, v2, p1);
    RegistryKeySymmetric(v1.etiqueta, v2.etiqueta);
    segundo := g.InsertarArista(v2, v1, p2);
  }

  /** eliminarArista on a new edge object equal to a registered one: the
      registry entry goes, both adjacency lists keep the registered object
      (removal from a list is by reference), and the lockstep is broken. */
  method EliminarCopia(g: Grafo, e: Arista) returns (r: Arista?)
    requires g.Valid() && g.Registrada(e)
    modifies g, e.vertice1, e.vertice2
    ensures r == e && e.HashCode() !in g.aristas
    ensures e.vertice1.vecindad == old(e.vertice1.vecindad) && e.vertice2.vecindad == old(e.vertice2.vecindad)
    ensures e in e.vertice1.vecindad
    ensures !g.Valid()
  {
    assert e.vertice1 in g.Verts && e in e.vertice1.vecindad by {
      assert g.RegistryOk();
    }
    ListedEdgeFacts(g, e.vertice1, e);
    var copia := new Arista(e.vertice1, e.vertice2, e.peso);
    assert copia.vertice1 == e.vertice1 && copia.vertice2 == e.vertice2 by {
      JavaString.CompareToAntisymmetric(e.vertice1.etiqueta, e.vertice2.etiqueta);
    }
    r := g.EliminarArista(copia);
    assert e.vertice1 in g.Verts && e in e.vertice1.vecindad && !g.Registrada(e);
  }

  /** A colliding key blocks an unrelated pair: once {"Aa","x"} is an edge,
      {"BB","x"} cannot be inserted, a different pair of labels. */
  method InsertarColision(g: Grafo, aa: Vertice, bb: Vertice, x: Vertice, peso: JavaString.Int32)
    returns (primero: bool, segundo: bool)
    requires aa.etiqueta == "Aa" && bb.etiqueta == "BB" && x.etiqueta == "x"
    modifies g, aa, bb, x
    ensures primero ==> !segundo
  {
    primero := g.InsertarArista(aa, x, peso);
    RegistryKeyCollides();
    segundo := g.InsertarArista(bb, x, peso);
  }
}
