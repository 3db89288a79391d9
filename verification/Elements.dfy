/** The two element classes of the graph: a vertex (`Vertice`) with its label
    and the list of incident edges, and an undirected weighted edge (`Arista`)
    whose endpoints are stored in canonical label order. The two classes refer
    to each other, so they share a module. */
module Elements {
  import JavaString
  import opened Sequences
  import opened Errors

  type Int32 = JavaString.Int32

  /** The registry key of the pair of labels {a, b}: the hash of the two
      labels concatenated in compareTo order. */
  function RegistryKey(a: string, b: string): Int32 {
    JavaString.HashCode(if JavaString.CompareTo(a, b) <= 0 then a + b else b + a)
  }

  /** The key does not depend on the order in which the pair is given. */
  lemma RegistryKeySymmetric(a: string, b: string)
    ensures RegistryKey(a, b) == RegistryKey(b, a)
  {
    JavaString.CompareToTotal(a, b);
  }

  /** The key is not injective on pairs: {"A","BC"} and {"AB","C"} concatenate
      to the same string, and {"Aa","x"} and {"BB","x"} to strings whose hashes
      collide. */
  lemma RegistryKeyCollides()
    ensures RegistryKey("A", "BC") == RegistryKey("AB", "C")
    ensures RegistryKey("Aa", "x") == RegistryKey("BB", "x")
  {
    assert JavaString.CompareTo("A", "BC") < 0 && JavaString.CompareTo("AB", "C") < 0;
    assert JavaString.CompareTo("Aa", "x") < 0 && JavaString.CompareTo("BB", "x") < 0;
    assert "A" + "BC" == "AB" + "C";
    JavaString.AaCollidesWithBB();
    JavaString.CollisionExtends("Aa", "BB", "x");
  }

  /** The canonical order of two endpoints: the one whose label is not greater
      under compareTo comes first; on equal labels the given order is kept. */
  function Canonical(v1: Vertice, v2: Vertice): (p: (Vertice, Vertice))
    ensures JavaString.CompareTo(p.0.etiqueta, p.1.etiqueta) <= 0
    ensures {p.0, p.1} == {v1, v2}
  {
    JavaString.CompareToAntisymmetric(v1.etiqueta, v2.etiqueta);
    if JavaString.CompareTo(v1.etiqueta, v2.etiqueta) <= 0 then (v1, v2) else (v2, v1)
  }

  /** Giving the endpoints the other way round yields the same labels in the
      same places, and the very same pair when the labels differ. */
  lemma CanonicalSwap(v1: Vertice, v2: Vertice)
    ensures Canonical(v1, v2).0.etiqueta == Canonical(v2, v1).0.etiqueta
    ensures Canonical(v1, v2).1.etiqueta == Canonical(v2, v1).1.etiqueta
    ensures v1.etiqueta != v2.etiqueta ==> Canonical(v1, v2) == Canonical(v2, v1)
  {
    JavaString.CompareToTotal(v1.etiqueta, v2.etiqueta);
  }

  class Vertice {
    /** The label, fixed at construction. */
    const etiqueta: string
    /** The incident edges, in insertion order (ArrayList<Arista>). */
    var vecindad: seq<Arista>

    constructor (etiqueta: string)
      ensures this.etiqueta == etiqueta && vecindad == []
    {
      this.etiqueta := etiqueta;
      vecindad := [];
    }

    /** Appends the edge unless that same object is already listed. */
    method InsertarVecino(arista: Arista)
      modifies this
      ensures vecindad == if arista in old(vecindad) then old(vecindad) else old(vecindad) + [arista]
      ensures NoDup(old(vecindad)) ==> NoDup(vecindad)
    {
      var presente := ContieneUnVecino(arista);
      if !presente {
        vecindad := vecindad + [arista];
      }
    }

    /** Membership by reference: Arista does not override Object.equals. */
    method ContieneUnVecino(arista: Arista) returns (b: bool)
      ensures b <==> exists i | 0 <= i < |vecindad| :: vecindad[i] == arista
    {
      b := arista in vecindad;
    }

    /** ArrayList.get: the edge at `indice`, or IndexOutOfBounds. */
    method GetVecino(indice: int) returns (r: Result<Arista>)
      ensures 0 <= indice < |vecindad| ==> r == Ok(vecindad[indice])
      ensures !(0 <= indice < |vecindad|) ==> r == Throws(IndexOutOfBounds)
    {
      if 0 <= indice < |vecindad| {
        r := Ok(vecindad[indice]);
      } else {
        r := Throws(IndexOutOfBounds);
      }
    }

    /** ArrayList.remove(int): removes and returns the edge at `indice`; the
        later edges move one place to the left. */
    method EliminarVecinoEn(indice: int) returns (r: Result<Arista>)
      modifies this
      ensures 0 <= indice < old(|vecindad|) ==>
        && r == Ok(old(vecindad[indice]))
        && |vecindad| == old(|vecindad|) - 1
        && vecindad[..indice] == old(vecindad[..indice])
        && forall k | indice <= k < |vecindad| :: vecindad[k] == old(vecindad[k + 1])
      ensures !(0 <= indice < old(|vecindad|)) ==> r == Throws(IndexOutOfBounds) && vecindad == old(vecindad)
    {
      if 0 <= indice < |vecindad| {
        r := Ok(vecindad[indice]);
        vecindad := vecindad[..indice] + vecindad[indice + 1..];
      } else {
        r := Throws(IndexOutOfBounds);
      }
    }

    /** ArrayList.remove(Object): removes the first occurrence of that object. */
    method EliminarVecino(arista: Arista)
      modifies this
      ensures vecindad == RemoveFirst(old(vecindad), arista)
      ensures arista in old(vecindad) ==> |vecindad| == old(|vecindad|) - 1
      ensures NoDup(old(vecindad)) ==> NoDup(vecindad) && arista !in vecindad
    {
      RemoveFirstFacts(vecindad, arista);
      vecindad := RemoveFirst(vecindad, arista);
    }

    function GetContarVecinos(): nat
      reads this
    {
      |vecindad|
    }

    /** Object.equals: another vertex with the same label; false for null. */
    function Equals(otro: Vertice?): (b: bool)
      ensures b ==> otro != null && HashCode() == otro.HashCode()
    {
      otro != null && etiqueta == otro.etiqueta
    }

    /** Object.hashCode: the hash of the label. */
    function HashCode(): Int32 {
      JavaString.HashCode(etiqueta)
    }

    /** A copy of the adjacency list; being a value, later changes to the copy
        and to the vertex do not affect each other. */
    method GetVecinos() returns (copia: seq<Arista>)
      ensures |copia| == |vecindad|
      ensures forall i | 0 <= i < |copia| :: copia[i] == vecindad[i]
    {
      copia := vecindad;
    }
  }

  class Arista {
    /** Endpoint whose label is not greater under compareTo. */
    const vertice1: Vertice
    /** The other endpoint. */
    const vertice2: Vertice
    /** The weight; the only mutable part of an edge. */
    var peso: Int32

    /** The canonical-order invariant that every constructed edge has. */
    predicate Canonico() {
      JavaString.CompareTo(vertice1.etiqueta, vertice2.etiqueta) <= 0
    }

    constructor (v1: Vertice, v2: Vertice, peso: Int32)
      ensures Canonico() && {vertice1, vertice2} == {v1, v2}
      ensures (vertice1, vertice2) == Canonical(v1, v2)
      ensures HashCode() == RegistryKey(v1.etiqueta, v2.etiqueta)
      ensures this.peso == peso
    {
      vertice1, vertice2 := Canonical(v1, v2).0, Canonical(v1, v2).1;
      this.peso := peso;
      new;
      RegistryKeySymmetric(v1.etiqueta, v2.etiqueta);
    }

    /** The unweighted form: weight 1. */
    constructor Unitaria(v1: Vertice, v2: Vertice)
      ensures Canonico() && {vertice1, vertice2} == {v1, v2}
      ensures (vertice1, vertice2) == Canonical(v1, v2)
      ensures HashCode() == RegistryKey(v1.etiqueta, v2.etiqueta)
      ensures peso == 1
    {
      vertice1, vertice2 := Canonical(v1, v2).0, Canonical(v1, v2).1;
      peso := 1;
      new;
      RegistryKeySymmetric(v1.etiqueta, v2.etiqueta);
    }

    /** The endpoint opposite `actual`, matched by label; null when `actual`
        has the label of neither endpoint. */
    function GetVecinoDe(actual: Vertice): (r: Vertice?)
      ensures r == null <==> actual.etiqueta != vertice1.etiqueta && actual.etiqueta != vertice2.etiqueta
      ensures r != null ==> r == vertice1 || r == vertice2
      ensures r != null && vertice1.etiqueta != vertice2.etiqueta ==> r.etiqueta != actual.etiqueta
      ensures actual.etiqueta == vertice1.etiqueta ==> r == vertice2
      ensures actual.etiqueta != vertice1.etiqueta && actual.etiqueta == vertice2.etiqueta ==> r == vertice1
    {
      if actual.Equals(vertice1) then vertice2
      else if actual.Equals(vertice2) then vertice1
      else null
    }

    method SetPeso(peso: Int32)
      modifies this
      ensures this.peso == peso
    {
      this.peso := peso;
    }

    /** Comparable.compareTo as written: the weight difference in int
        arithmetic, which wraps around when the difference leaves 32 bits. */
    function CompareTo(otra: Arista): (r: Int32)
      reads this, otra
      ensures r == 0 <==> peso == otra.peso
      ensures JavaString.MinInt32 <= peso - otra.peso <= JavaString.MaxInt32 ==>
        (r < 0 <==> peso < otra.peso) && (r > 0 <==> peso > otra.peso)
    {
      JavaString.Wrap32(peso - otra.peso)
    }

    /** The order by weight that compareTo is meant to give, without overflow. */
    function CompareByPeso(otra: Arista): (r: int)
      reads this, otra
      ensures r == 0 <==> peso == otra.peso
      ensures r < 0 <==> peso < otra.peso
      ensures r > 0 <==> peso > otra.peso
    {
      if peso < otra.peso then -1 else if peso == otra.peso then 0 else 1
    }

    /** The hash of the canonical labels concatenated: the registry key of
        the pair of endpoint labels. */
    function HashCode(): (h: Int32)
      ensures Canonico() ==> h == RegistryKey(vertice1.etiqueta, vertice2.etiqueta)
    {
      JavaString.HashCode(vertice1.etiqueta + vertice2.etiqueta)
    }

    /** equals(Arista): both canonical endpoints carry the same labels; the
        weight plays no part. */
    function Equals(objeto: Arista?): (b: bool)
      ensures b ==> objeto != null && HashCode() == objeto.HashCode()
    {
      objeto != null && objeto.vertice1.Equals(vertice1) && objeto.vertice2.Equals(vertice2)
    }
  }

  /** Vertex equality is an equivalence relation on vertices. */
  lemma VerticeEqualsIsEquivalence(a: Vertice, b: Vertice, c: Vertice)
    ensures a.Equals(a)
    ensures a.Equals(b) <==> b.Equals(a)
    ensures a.Equals(b) && b.Equals(c) ==> a.Equals(c)
  {
  }

  /** compareTo as written reports 2147483647 as smaller than -1. */
  lemma CompareToOverflows(a: Arista, b: Arista)
    requires a.peso == JavaString.MaxInt32 && b.peso == -1
    ensures a.peso > b.peso && a.CompareTo(b) < 0
    ensures a.CompareByPeso(b) > 0
  {
  }

  /** For canonical edges, equals holds exactly when the two unordered pairs
      of labels coincide. */
  lemma EqualsIsSamePair(a: Arista, b: Arista)
    requires a.Canonico() && b.Canonico()
    ensures a.Equals(b) <==>
      multiset{a.vertice1.etiqueta, a.vertice2.etiqueta} == multiset{b.vertice1.etiqueta, b.vertice2.etiqueta}
  {
    var x1, y1, x2, y2 := a.vertice1.etiqueta, a.vertice2.etiqueta, b.vertice1.etiqueta, b.vertice2.etiqueta;
    if multiset{x1, y1} == multiset{x2, y2} && !(x1 == x2 && y1 == y2) {
      assert x1 in multiset{x2, y2};
      assert x1 == y2 && y1 == x2;
      JavaString.CompareToTotal(x1, y1);
    }
  }

  /** From either endpoint, getVecinoDe reaches the other one when the labels
      differ; with equal labels the second endpoint finds itself. */
  lemma VecinoDeEndpoints(a: Arista)
    ensures a.GetVecinoDe(a.vertice1) == a.vertice2
    ensures a.vertice1.etiqueta != a.vertice2.etiqueta ==> a.GetVecinoDe(a.vertice2) == a.vertice1
    ensures a.vertice1.etiqueta == a.vertice2.etiqueta ==> a.GetVecinoDe(a.vertice2) == a.vertice2
  {
  }
}
