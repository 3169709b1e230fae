/** The adjacency matrix of the network-inference program (Matrix in src/matrix.h
    and src/matrix.cpp): one ordered map per gene from neighbour id to an edge
    node, with the insert-or-overwrite and symmetric insert, the three-valued
    lookup, the DPI pruning that marks an edge with the gene it is explained
    through, the reading of an ADJ file, the writing of its lines, and the
    computation of one row from the expression data. */
module AdjacencyMatrix {
  import opened Wrappers
  import opened Strings
  import opened Microarray

  /** An edge: its mutual information and the gene it was pruned through, or -1. */
  datatype Node = Node(mutinfo: real, intermediate: int)

  /** Node(mi): a new edge has no intermediate. */
  function NewNode(mi: real): (n: Node)
    ensures n.mutinfo == mi && n.intermediate == -1
  {
    Node(mi, -1)
  }

  /** A row of the matrix (NodeMap): neighbour id to edge, one entry per neighbour. */
  type NodeMap = map<int, Node>

  /** The rows of the matrix (NodeMapVector). */
  type Rows = seq<NodeMap>

  /** The transcription factors: the program only asks whether an id is one. */
  type Transfac = set<int>

  // ---------------------------------------------------------------------------
  // saveNode, addNode, createEntries

  /** Row `m` after saveNode(_, j, mi): a new neighbour gets Node(mi), an existing
      one keeps its intermediate and takes the new mutual information. */
  function SaveInRow(m: NodeMap, j: int, mi: real): (r: NodeMap)
    ensures r.Keys == m.Keys + {j}
    ensures r[j].mutinfo == mi
    ensures r[j].intermediate == (if j in m then m[j].intermediate else -1)
    ensures forall k :: k in m && k != j ==> r[k] == m[k]
  {
    if j in m then m[j := m[j].(mutinfo := mi)] else m[j := NewNode(mi)]
  }

  /** The rows after saveNode(i, j, mi): only row i changes. */
  function Save(nmv: Rows, i: int, j: int, mi: real): (r: Rows)
    requires 0 <= i < |nmv|
    ensures |r| == |nmv| && r[i] == SaveInRow(nmv[i], j, mi)
    ensures forall k :: 0 <= k < |nmv| && k != i ==> r[k] == nmv[k]
  {
    nmv[i := SaveInRow(nmv[i], j, mi)]
  }

  /** A second save of the same cell overrides the first. */
  lemma SaveLastWins(nmv: Rows, i: int, j: int, a: real, b: real)
    requires 0 <= i < |nmv|
    ensures Save(Save(nmv, i, j, a), i, j, b) == Save(nmv, i, j, b)
  {
    assert SaveInRow(SaveInRow(nmv[i], j, a), j, b) == SaveInRow(nmv[i], j, b);
  }

  /** Saves of two different cells can be made in either order. */
  lemma SaveCommutes(nmv: Rows, i: int, j: int, a: real, i2: int, j2: int, b: real)
    requires 0 <= i < |nmv| && 0 <= i2 < |nmv| && (i, j) != (i2, j2)
    ensures Save(Save(nmv, i, j, a), i2, j2, b) == Save(Save(nmv, i2, j2, b), i, j, a)
  {
    if i == i2 {
      assert SaveInRow(SaveInRow(nmv[i], j, a), j2, b) == SaveInRow(SaveInRow(nmv[i], j2, b), j, a);
    }
  }

  /** The rows after addNode(i, j, v, symmetric). */
  function Add(nmv: Rows, i: int, j: int, v: real, symmetric: bool): (r: Rows)
    requires 0 <= i < |nmv| && (symmetric ==> 0 <= j < |nmv|)
    ensures |r| == |nmv|
  {
    var once := Save(nmv, i, j, v);
    if symmetric then Save(once, j, i, v) else once
  }

  /** addNode stores v at (i, j), and at (j, i) too when symmetric; the other
      rows are untouched. */
  lemma AddStores(nmv: Rows, i: int, j: int, v: real, symmetric: bool)
    requires 0 <= i < |nmv| && (symmetric ==> 0 <= j < |nmv|)
    ensures var r := Add(nmv, i, j, v, symmetric);
      |r| == |nmv| && j in r[i] && r[i][j].mutinfo == v &&
      (symmetric ==> i in r[j] && r[j][i].mutinfo == v) &&
      (!symmetric ==> r == Save(nmv, i, j, v)) &&
      (forall k :: 0 <= k < |nmv| && k != i && (!symmetric || k != j) ==> r[k] == nmv[k])
  {
  }

  /** Every stored edge has its mirror image with the same mutual information. */
  ghost predicate Symmetric(nmv: Rows)
  {
    forall i, k :: 0 <= i < |nmv| && k in nmv[i] ==> Mirrored(nmv, i, k)
  }

  /** The edge (i, k) has its mirror image (k, i) with the same mutual information. */
  ghost predicate Mirrored(nmv: Rows, i: int, k: int)
    requires 0 <= i < |nmv| && k in nmv[i]
  {
    0 <= k < |nmv| && i in nmv[k] && nmv[k][i].mutinfo == nmv[i][k].mutinfo
  }

  lemma SymmetricAt(nmv: Rows, a: int, k: int)
    requires Symmetric(nmv) && 0 <= a < |nmv| && k in nmv[a]
    ensures 0 <= k < |nmv| && a in nmv[k] && nmv[k][a].mutinfo == nmv[a][k].mutinfo
  {
    assert Mirrored(nmv, a, k);
  }

  /** A symmetric insert keeps the matrix symmetric. */
  lemma AddKeepsSymmetric(nmv: Rows, i: int, j: int, v: real)
    requires 0 <= i < |nmv| && 0 <= j < |nmv|
    requires Symmetric(nmv)
    ensures Symmetric(Add(nmv, i, j, v, true))
  {
    var r: Rows := Add(nmv, i, j, v, true);
    forall a: int, k: int | 0 <= a < |r| && k in r[a]
      ensures Mirrored(r, a, k)
    {
      assert |r| == |nmv|;
      AddCell(nmv, i, j, v, a, k);
      if (a, k) == (i, j) || (a, k) == (j, i) {
        AddStores(nmv, i, j, v, true);
      } else {
        assert k in nmv[a];
        SymmetricAt(nmv, a, k);
        AddCell(nmv, i, j, v, k, a);
      }
    }
  }

  /** A symmetric insert adds the cells (i, j) and (j, i) and leaves every
      other cell as it was. */
  lemma AddCell(nmv: Rows, i: int, j: int, v: real, a: int, k: int)
    requires 0 <= i < |nmv| && 0 <= j < |nmv| && 0 <= a < |nmv|
    ensures var r := Add(nmv, i, j, v, true);
      (k in r[a] <==> k in nmv[a] || (a, k) == (i, j) || (a, k) == (j, i)) &&
      ((a, k) != (i, j) && (a, k) != (j, i) && k in nmv[a] ==> r[a][k] == nmv[a][k])
  {
    var once := Save(nmv, i, j, v);
    assert k in once[a] <==> k in nmv[a] || (a, k) == (i, j);
    assert (a, k) != (i, j) && k in nmv[a] ==> once[a][k] == nmv[a][k];
  }

  // ---------------------------------------------------------------------------
  // getNodeMI

  /** Row `a` exists and has at least one edge (nmv.size() > a as an unsigned
      comparison, so a negative id has no row). */
  predicate HasRow(nmv: Rows, a: int)
  {
    0 <= a < |nmv| && |nmv[a]| > 0
  }

  /** The mutual information stored for `b` in row `m`, or 0 when there is none. */
  function Lookup(m: NodeMap, b: int): real
  {
    if b in m then m[b].mutinfo else 0.0
  }

  /** getNodeMI(a, b): looked up in row a when it is non-empty, else in row b when
      that one is, else -1 for a pair not computed. */
  function NodeMI(nmv: Rows, a: int, b: int): real
  {
    if HasRow(nmv, a) then Lookup(nmv[a], b)
    else if HasRow(nmv, b) then Lookup(nmv[b], a)
    else -1.0
  }

  ghost predicate NonNegative(nmv: Rows)
  {
    forall i, k :: 0 <= i < |nmv| && k in nmv[i] ==> nmv[i][k].mutinfo >= 0.0
  }

  /** The three values of the lookup: with non-negative mutual information, -1
      exactly when neither row was computed, the stored value when one row holds
      the other gene, and 0 when a computed row does not hold it. */
  lemma NodeMICases(nmv: Rows, a: int, b: int)
    requires NonNegative(nmv)
    ensures NodeMI(nmv, a, b) == -1.0 <==> !HasRow(nmv, a) && !HasRow(nmv, b)
    ensures NodeMI(nmv, a, b) >= 0.0 <==> HasRow(nmv, a) || HasRow(nmv, b)
    ensures HasRow(nmv, a) && b in nmv[a] ==> NodeMI(nmv, a, b) == nmv[a][b].mutinfo
    ensures HasRow(nmv, a) && b !in nmv[a] ==> NodeMI(nmv, a, b) == 0.0
    ensures !HasRow(nmv, a) && HasRow(nmv, b) ==> NodeMI(nmv, a, b) == Lookup(nmv[b], a)
  {
  }

  /** On a symmetric matrix the lookup does not depend on the order of the genes. */
  lemma NodeMISymmetric(nmv: Rows, a: int, b: int)
    requires Symmetric(nmv)
    ensures NodeMI(nmv, a, b) == NodeMI(nmv, b, a)
  {
    if HasRow(nmv, a) && HasRow(nmv, b) {
      if b in nmv[a] {
        SymmetricAt(nmv, a, b);
      }
      if a in nmv[b] {
        SymmetricAt(nmv, b, a);
      }
    }
  }

  /** After a symmetric insert of v for (i, j), both lookups give v. */
  lemma NodeMIAfterAdd(nmv: Rows, i: int, j: int, v: real)
    requires 0 <= i < |nmv| && 0 <= j < |nmv|
    ensures NodeMI(Add(nmv, i, j, v, true), i, j) == v
    ensures NodeMI(Add(nmv, i, j, v, true), j, i) == v
  {
    AddStores(nmv, i, j, v, true);
  }

  // ---------------------------------------------------------------------------
  // Mutual information only: what the pruning never changes

  function MIs(m: NodeMap): map<int, real>
  {
    map k | k in m :: m[k].mutinfo
  }

  /** Two matrices with the same edges and the same mutual information. */
  ghost predicate SameMI(n1: Rows, n2: Rows)
  {
    |n1| == |n2| && forall r :: 0 <= r < |n1| ==> MIs(n1[r]) == MIs(n2[r])
  }

  lemma SameMIKeys(m1: NodeMap, m2: NodeMap)
    requires MIs(m1) == MIs(m2)
    ensures m1.Keys == m2.Keys && |m1| == |m2|
    ensures forall k :: k in m1 ==> m1[k].mutinfo == m2[k].mutinfo
  {
    assert m1.Keys == MIs(m1).Keys;
    assert m2.Keys == MIs(m2).Keys;
    forall k | k in m1
      ensures m1[k].mutinfo == m2[k].mutinfo
    {
      assert MIs(m1)[k] == m1[k].mutinfo;
      assert MIs(m2)[k] == m2[k].mutinfo;
    }
  }

  lemma SameMINodeMI(n1: Rows, n2: Rows, a: int, b: int)
    requires SameMI(n1, n2)
    ensures NodeMI(n1, a, b) == NodeMI(n2, a, b)
  {
    if 0 <= a < |n1| {
      SameMIKeys(n1[a], n2[a]);
    }
    if 0 <= b < |n1| {
      SameMIKeys(n1[b], n2[b]);
    }
  }

  /** Changing intermediates of one row keeps the mutual information. */
  lemma SameMIRow(n: Rows, row: int, m: NodeMap)
    requires 0 <= row < |n|
    requires m.Keys == n[row].Keys
    requires forall k :: k in m ==> m[k].mutinfo == n[row][k].mutinfo
    ensures SameMI(n[row := m], n)
  {
    forall k | k in m
      ensures MIs(m)[k] == MIs(n[row])[k]
    {
    }
    assert MIs(m) == MIs(n[row]);
  }

  // ---------------------------------------------------------------------------
  // reduceOneNode and reduce

  /** protectedByTFLogic: the edge (a, b) is kept when a or b is a transcription
      factor and the candidate intermediate c is not. */
  predicate Protected(tf: Transfac, a: int, b: int, c: int)
  {
    (a in tf || b in tf) && c !in tf
  }

  /** An (array id, value) pair of the sorted miVector. */
  datatype ValuePair = ValuePair(id: int, value: real)

  /** `order` lists the neighbours of row `m` once each by non-increasing mutual
      information: the order std::sort leaves miVector in (neighbours with equal
      values in an order the library chooses). */
  predicate DecreasingOrder(order: seq<int>, m: NodeMap)
  {
    (forall p :: 0 <= p < |order| ==> order[p] in m) &&
    (forall k :: k in m ==> k in order) &&
    (forall p, q :: 0 <= p < q < |order| ==> order[p] != order[q]) &&
    (forall p, q :: 0 <= p < q < |order| ==> m[order[p]].mutinfo >= m[order[q]].mutinfo)
  }

  lemma SameMIOrder(order: seq<int>, m1: NodeMap, m2: NodeMap)
    requires MIs(m1) == MIs(m2)
    requires DecreasingOrder(order, m2)
    ensures DecreasingOrder(order, m1)
  {
    SameMIKeys(m1, m2);
  }

  /** miVector: the neighbours in sorted order with their mutual information. */
  function Pairs(m: NodeMap, order: seq<int>): (v: seq<ValuePair>)
    requires forall p :: 0 <= p < |order| ==> order[p] in m
    ensures |v| == |order|
    ensures forall p :: 0 <= p < |order| ==> v[p] == ValuePair(order[p], m[order[p]].mutinfo)
  {
    seq(|order|, p requires 0 <= p < |order| => ValuePair(order[p], m[order[p]].mutinfo))
  }

  /** The edge of the pair at position i is explained through the pair at q. */
  predicate Picks(nmv: Rows, row: int, v: seq<ValuePair>, i: int, q: int, minMI: real, tf: Transfac)
    requires 0 <= i < |v| && 0 <= q < |v|
  {
    NodeMI(nmv, v[i].id, v[q].id) > minMI && (tf == {} || !Protected(tf, row, v[i].id, v[q].id))
  }

  /** The inner loop of reduceOneNode for the pair at position i, from position j:
      the first position before i that picks, unless a pair with at most `minMI`
      comes first. */
  function Scan(nmv: Rows, row: int, v: seq<ValuePair>, i: int, j: int, minMI: real, tf: Transfac): (r: Option<int>)
    requires 0 <= j <= i < |v|
    ensures r.Some? ==> j <= r.value < i && v[r.value].value > minMI && Picks(nmv, row, v, i, r.value, minMI, tf)
    ensures r.Some? ==> forall q :: j <= q < r.value ==> v[q].value > minMI && !Picks(nmv, row, v, i, q, minMI, tf)
    decreases i - j
  {
    if j == i || v[j].value <= minMI then None
    else if Picks(nmv, row, v, i, j, minMI, tf) then Some(j)
    else Scan(nmv, row, v, i, j + 1, minMI, tf)
  }

  /** The scan finds a pick when there is one before the first small value. */
  lemma {:induction false} ScanFinds(nmv: Rows, row: int, v: seq<ValuePair>, i: int, j: int, q: int, minMI: real, tf: Transfac)
    requires 0 <= j <= q < i < |v|
    requires forall p :: j <= p <= q ==> v[p].value > minMI
    requires Picks(nmv, row, v, i, q, minMI, tf)
    ensures Scan(nmv, row, v, i, j, minMI, tf).Some?
    decreases q - j
  {
    if j < q && !Picks(nmv, row, v, i, j, minMI, tf) {
      ScanFinds(nmv, row, v, i, j + 1, q, minMI, tf);
    }
  }

  lemma {:induction false} ScanSameMI(n1: Rows, n2: Rows, row: int, v: seq<ValuePair>, i: int, j: int, minMI: real, tf: Transfac)
    requires SameMI(n1, n2)
    requires 0 <= j <= i < |v|
    ensures Scan(n1, row, v, i, j, minMI, tf) == Scan(n2, row, v, i, j, minMI, tf)
    decreases i - j
  {
    if j < i {
      SameMINodeMI(n1, n2, v[i].id, v[j].id);
      ScanSameMI(n1, n2, row, v, i, j + 1, minMI, tf);
    }
  }

  /** minMI = valueAB / (1 - epsilon). */
  function MinMI(ab: real, eps: real): real
    requires eps != 1.0
  {
    ab / (1.0 - eps)
  }

  /** The position of `k` in `order`. */
  function IndexOf(order: seq<int>, k: int): (p: nat)
    requires k in order
    ensures p < |order| && order[p] == k
  {
    if order[0] == k then 0 else 1 + IndexOf(order[1..], k)
  }

  lemma IndexOfDistinct(order: seq<int>, p: int)
    requires 0 <= p < |order|
    requires forall a, b :: 0 <= a < b < |order| ==> order[a] != order[b]
    ensures IndexOf(order, order[p]) == p
  {
  }

  /** The edge at sorted position i of row `row` after the pruning. */
  function PrunedNode(nmv: Rows, row: int, order: seq<int>, i: int, eps: real, tf: Transfac): Node
    requires 0 <= row < |nmv| && eps != 1.0
    requires forall p :: 0 <= p < |order| ==> order[p] in nmv[row]
    requires 0 <= i < |order|
  {
    var node := nmv[row][order[i]];
    var pick := Pick(nmv, row, order, i, eps, tf);
    if pick.Some? then node.(intermediate := pick.value) else node
  }

  /** The intermediate the scan picks for the neighbour at sorted position i. */
  function Pick(nmv: Rows, row: int, order: seq<int>, i: int, eps: real, tf: Transfac): Option<int>
    requires 0 <= row < |nmv| && eps != 1.0
    requires forall p :: 0 <= p < |order| ==> order[p] in nmv[row]
    requires 0 <= i < |order|
  {
    var v := Pairs(nmv[row], order);
    match Scan(nmv, row, v, i, 0, MinMI(v[i].value, eps), tf)
    case None => None
    case Some(q) => Some(v[q].id)
  }

  /** The pick depends on the mutual information only. */
  lemma PickSameMI(n1: Rows, n2: Rows, row: int, order: seq<int>, i: int, eps: real, tf: Transfac)
    requires SameMI(n1, n2) && 0 <= row < |n1| && eps != 1.0
    requires forall p :: 0 <= p < |order| ==> order[p] in n2[row]
    requires 0 <= i < |order|
    ensures forall p :: 0 <= p < |order| ==> order[p] in n1[row]
    ensures Pick(n1, row, order, i, eps, tf) == Pick(n2, row, order, i, eps, tf)
  {
    SameMIKeys(n1[row], n2[row]);
    var v1 := Pairs(n1[row], order);
    var v2 := Pairs(n2[row], order);
    assert v1 == v2;
    ScanSameMI(n1, n2, row, v1, i, 0, MinMI(v1[i].value, eps), tf);
  }

  /** Row `row` with the positions before `i` pruned. */
  function PartlyReduced(nmv: Rows, row: int, order: seq<int>, eps: real, tf: Transfac, i: int): (r: NodeMap)
    requires 0 <= row < |nmv| && eps != 1.0 && DecreasingOrder(order, nmv[row])
  {
    map k | k in nmv[row] ::
      if IndexOf(order, k) < i then PrunedNode(nmv, row, order, IndexOf(order, k), eps, tf) else nmv[row][k]
  }

  /** The row reduceOneNode leaves: the same neighbours and mutual information, an
      intermediate set wherever the scan picks one and kept elsewhere. */
  function ReducedRow(nmv: Rows, row: int, order: seq<int>, eps: real, tf: Transfac): (r: NodeMap)
    requires 0 <= row < |nmv| && eps != 1.0 && DecreasingOrder(order, nmv[row])
    ensures r.Keys == nmv[row].Keys
    ensures forall k :: k in r ==> r[k].mutinfo == nmv[row][k].mutinfo
  {
    PartlyReduced(nmv, row, order, eps, tf, |order|)
  }

  /** A neighbour c of `row` explains the edge (row, b): both its edges are
      stronger than minMI and the TF rule does not protect (row, b). */
  ghost predicate Witness(nmv: Rows, row: int, b: int, c: int, minMI: real, tf: Transfac)
    requires 0 <= row < |nmv|
  {
    c in nmv[row] && nmv[row][c].mutinfo > minMI && NodeMI(nmv, b, c) > minMI &&
    (tf == {} || !Protected(tf, row, b, c))
  }

  /** The data processing inequality as reduceOneNode applies it: with
      0 <= epsilon < 1 and non-negative mutual information, the edge (row, b) gets an
      intermediate exactly when some neighbour c of `row` has both edges above
      MI(row, b) / (1 - epsilon) without TF protection; the one chosen is such a c,
      and no neighbour sorted before it is. */
  lemma DpiRule(nmv: Rows, row: int, order: seq<int>, i: int, eps: real, tf: Transfac)
    requires 0 <= row < |nmv| && DecreasingOrder(order, nmv[row]) && 0 <= i < |order|
    requires 0.0 <= eps < 1.0
    requires nmv[row][order[i]].mutinfo >= 0.0
    ensures var v := Pairs(nmv[row], order);
      var minMI := MinMI(v[i].value, eps);
      var r := Scan(nmv, row, v, i, 0, minMI, tf);
      (r.Some? ==> (Witness(nmv, row, order[i], order[r.value], minMI, tf) &&
                    forall q :: 0 <= q < r.value ==> !Witness(nmv, row, order[i], order[q], minMI, tf))) &&
      (r.None? <==> forall c :: c in nmv[row] ==> !Witness(nmv, row, order[i], c, minMI, tf))
  {
    var m := nmv[row];
    var v := Pairs(m, order);
    var minMI := MinMI(v[i].value, eps);
    assert minMI >= v[i].value by {
      MinMIAbove(v[i].value, eps);
    }
    var r := Scan(nmv, row, v, i, 0, minMI, tf);
    forall c | c in m && Witness(nmv, row, order[i], c, minMI, tf)
      ensures r.Some?
    {
      var q := IndexOf(order, c);
      assert q < i;
      forall p | 0 <= p <= q
        ensures v[p].value > minMI
      {
        if p < q {
          assert m[order[p]].mutinfo >= m[order[q]].mutinfo;
        }
      }
      ScanFinds(nmv, row, v, i, 0, q, minMI, tf);
    }
  }

  lemma MinMIAbove(ab: real, eps: real)
    requires 0.0 <= eps < 1.0 && ab >= 0.0
    ensures MinMI(ab, eps) >= ab
  {
    var d := 1.0 - eps;
    assert 0.0 < d <= 1.0;
    assert MinMI(ab, eps) * d == ab;
  }

  /** What the pruning does to one edge (row, b): its mutual information stays;
      when some neighbour explains the edge, the intermediate recorded is one that
      does; when none does, the edge is left as it was. */
  lemma ReducedEdge(nmv: Rows, row: int, order: seq<int>, eps: real, tf: Transfac, b: int)
    requires 0 <= row < |nmv| && DecreasingOrder(order, nmv[row]) && b in nmv[row]
    requires 0.0 <= eps < 1.0 && NonNegative(nmv)
    ensures var e := ReducedRow(nmv, row, order, eps, tf)[b];
      var minMI := MinMI(nmv[row][b].mutinfo, eps);
      e.mutinfo == nmv[row][b].mutinfo &&
      ((exists c :: Witness(nmv, row, b, c, minMI, tf)) ==> Witness(nmv, row, b, e.intermediate, minMI, tf)) &&
      ((forall c :: !Witness(nmv, row, b, c, minMI, tf)) ==> e == nmv[row][b])
  {
    var i := IndexOf(order, b);
    ReducedRowAt(nmv, row, order, eps, tf, i);
    DpiRule(nmv, row, order, i, eps, tf);
  }

  /** Row `row` of the reduced matrix holds only the pruned edges: the
      intermediate of the neighbour at position i is what the scan picks. */
  lemma ReducedRowAt(nmv: Rows, row: int, order: seq<int>, eps: real, tf: Transfac, i: int)
    requires 0 <= row < |nmv| && eps != 1.0 && DecreasingOrder(order, nmv[row]) && 0 <= i < |order|
    ensures ReducedRow(nmv, row, order, eps, tf)[order[i]] == PrunedNode(nmv, row, order, i, eps, tf)
  {
    IndexOfDistinct(order, i);
  }

  ghost predicate ReduceInv(n0: Rows, nmv: Rows, row: int, order: seq<int>, eps: real, tf: Transfac, i: int)
    requires 0 <= row < |n0| && eps != 1.0 && DecreasingOrder(order, n0[row])
  {
    |nmv| == |n0| && nmv == n0[row := PartlyReduced(n0, row, order, eps, tf, i)]
  }

  lemma ReduceStart(n0: Rows, row: int, order: seq<int>, eps: real, tf: Transfac)
    requires 0 <= row < |n0| && eps != 1.0 && DecreasingOrder(order, n0[row])
    ensures ReduceInv(n0, n0, row, order, eps, tf, 0)
  {
    assert PartlyReduced(n0, row, order, eps, tf, 0) == n0[row];
  }

  /** While the loop runs, the matrix has the mutual information it started with. */
  lemma ReduceInvSameMI(n0: Rows, nmv: Rows, row: int, order: seq<int>, eps: real, tf: Transfac, i: int)
    requires 0 <= row < |n0| && eps != 1.0 && DecreasingOrder(order, n0[row])
    requires ReduceInv(n0, nmv, row, order, eps, tf, i)
    ensures SameMI(nmv, n0)
  {
    SameMIRow(n0, row, PartlyReduced(n0, row, order, eps, tf, i));
  }

  /** Pruning one more position changes one entry of the row. */
  lemma PartlyReducedStep(n0: Rows, row: int, order: seq<int>, eps: real, tf: Transfac, i: int)
    requires 0 <= row < |n0| && eps != 1.0 && DecreasingOrder(order, n0[row]) && 0 <= i < |order|
    ensures order[i] in PartlyReduced(n0, row, order, eps, tf, i)
    ensures PartlyReduced(n0, row, order, eps, tf, i)[order[i]] == n0[row][order[i]]
    ensures PartlyReduced(n0, row, order, eps, tf, i + 1) ==
      PartlyReduced(n0, row, order, eps, tf, i)[order[i] := PrunedNode(n0, row, order, i, eps, tf)]
  {
    IndexOfDistinct(order, i);
    PartlyReducedAt(n0, row, order, eps, tf, i, order[i]);
    var next := PartlyReduced(n0, row, order, eps, tf, i + 1);
    var upd := PartlyReduced(n0, row, order, eps, tf, i)[order[i] := PrunedNode(n0, row, order, i, eps, tf)];
    PartlyReducedPointwise(n0, row, order, eps, tf, i);
    MapsEqual(next, upd);
  }

  lemma PartlyReducedPointwise(n0: Rows, row: int, order: seq<int>, eps: real, tf: Transfac, i: int)
    requires 0 <= row < |n0| && eps != 1.0 && DecreasingOrder(order, n0[row]) && 0 <= i < |order|
    ensures var next := PartlyReduced(n0, row, order, eps, tf, i + 1);
      var upd := PartlyReduced(n0, row, order, eps, tf, i)[order[i] := PrunedNode(n0, row, order, i, eps, tf)];
      next.Keys == upd.Keys && forall k :: k in next ==> next[k] == upd[k]
  {
    var cur := PartlyReduced(n0, row, order, eps, tf, i);
    var next := PartlyReduced(n0, row, order, eps, tf, i + 1);
    var upd := cur[order[i] := PrunedNode(n0, row, order, i, eps, tf)];
    assert next.Keys == upd.Keys by {
      PartlyReducedAt(n0, row, order, eps, tf, i + 1, order[i]);
    }
    forall k | k in next
      ensures next[k] == upd[k]
    {
      PartlyReducedStepAt(n0, row, order, eps, tf, i, k);
    }
  }

  lemma PartlyReducedStepAt(n0: Rows, row: int, order: seq<int>, eps: real, tf: Transfac, i: int, k: int)
    requires 0 <= row < |n0| && eps != 1.0 && DecreasingOrder(order, n0[row]) && 0 <= i < |order|
    requires k in n0[row]
    ensures var next := PartlyReduced(n0, row, order, eps, tf, i + 1);
      var upd := PartlyReduced(n0, row, order, eps, tf, i)[order[i] := PrunedNode(n0, row, order, i, eps, tf)];
      k in next && k in upd && next[k] == upd[k]
  {
    PartlyReducedAt(n0, row, order, eps, tf, i, k);
    PartlyReducedAt(n0, row, order, eps, tf, i + 1, k);
    var j := IndexOf(order, k);
    if k == order[i] {
      IndexOfDistinct(order, i);
      assert j == i;
    } else {
      assert j != i;
    }
  }

  lemma PartlyReducedAt(n0: Rows, row: int, order: seq<int>, eps: real, tf: Transfac, i: int, k: int)
    requires 0 <= row < |n0| && eps != 1.0 && DecreasingOrder(order, n0[row]) && k in n0[row]
    ensures var r := PartlyReduced(n0, row, order, eps, tf, i); var j := IndexOf(order, k);
      k in r && r[k] == if j < i then PrunedNode(n0, row, order, j, eps, tf) else n0[row][k]
  {
  }

  /** The row reduceOneNode's body leaves after position i, given what the inner loop found. */
  function Marked(m: NodeMap, id: int, v: seq<ValuePair>, found: Option<int>): NodeMap
  {
    if found.Some? && 0 <= found.value < |v| && id in m then m[id := m[id].(intermediate := v[found.value].id)]
    else m
  }

  lemma UpdateSame(m: NodeMap, k: int)
    requires k in m
    ensures m[k := m[k]] == m
  {
  }

  lemma MarkedIsPruned(n0: Rows, row: int, order: seq<int>, eps: real, tf: Transfac, i: int,
                       cur: NodeMap, v: seq<ValuePair>, found: Option<int>)
    requires 0 <= row < |n0| && eps != 1.0 && DecreasingOrder(order, n0[row]) && 0 <= i < |order|
    requires v == Pairs(n0[row], order)
    requires found == Scan(n0, row, v, i, 0, MinMI(v[i].value, eps), tf)
    requires order[i] in cur && cur[order[i]] == n0[row][order[i]]
    ensures Marked(cur, v[i].id, v, found) == cur[order[i] := PrunedNode(n0, row, order, i, eps, tf)]
  {
    if found.None? {
      UpdateSame(cur, order[i]);
    }
  }

  lemma ReduceStepLemma(n0: Rows, nmv: Rows, row: int, order: seq<int>, eps: real, tf: Transfac, i: int,
                        v: seq<ValuePair>, minMI: real, found: Option<int>)
    requires 0 <= row < |n0| && eps != 1.0 && DecreasingOrder(order, n0[row]) && 0 <= i < |order|
    requires ReduceInv(n0, nmv, row, order, eps, tf, i)
    requires v == Pairs(n0[row], order) && minMI == v[i].value / (1.0 - eps)
    requires found == Scan(nmv, row, v, i, 0, minMI, tf)
    ensures ReduceInv(n0, nmv[row := Marked(nmv[row], v[i].id, v, found)], row, order, eps, tf, i + 1)
  {
    var cur := PartlyReduced(n0, row, order, eps, tf, i);
    var next := PartlyReduced(n0, row, order, eps, tf, i + 1);
    assert nmv[row] == cur;
    ReduceInvSameMI(n0, nmv, row, order, eps, tf, i);
    ScanSameMI(nmv, n0, row, v, i, 0, minMI, tf);
    PartlyReducedStep(n0, row, order, eps, tf, i);
    MarkedIsPruned(n0, row, order, eps, tf, i, cur, v, found);
    assert Marked(cur, v[i].id, v, found) == next;
    UpdateTwice(n0, row, cur, next);
  }

  lemma UpdateTwice(s: Rows, i: int, a: NodeMap, b: NodeMap)
    requires 0 <= i < |s|
    ensures s[i := a][i := b] == s[i := b]
  {
    var x, y := s[i := a][i := b], s[i := b];
    assert |x| == |y| && forall k :: 0 <= k < |x| ==> x[k] == y[k];
  }

  /** The rows in `done` are pruned, the others are as they were. */
  ghost predicate RowsReduced(n0: Rows, nmv: Rows, done: set<int>, eps: real, tf: Transfac,
                              orders: int -> seq<int>)
    requires eps != 1.0
    requires forall r :: 0 <= r < |n0| ==> DecreasingOrder(orders(r), n0[r])
  {
    |nmv| == |n0| &&
    forall r :: 0 <= r < |n0| ==>
      nmv[r] == if r in done then ReducedRow(n0, r, orders(r), eps, tf) else n0[r]
  }

  lemma MIsOfReduced(n0: Rows, row: int, order: seq<int>, eps: real, tf: Transfac)
    requires 0 <= row < |n0| && eps != 1.0 && DecreasingOrder(order, n0[row])
    ensures MIs(ReducedRow(n0, row, order, eps, tf)) == MIs(n0[row])
  {
    var a := MIs(ReducedRow(n0, row, order, eps, tf));
    forall k | k in a
      ensures a[k] == MIs(n0[row])[k]
    {
    }
  }

  /** Pruning a row again, after it or other rows were pruned, gives the same row:
      the pruning depends on mutual information only, which it keeps. */
  lemma ReducedRowAgain(n0: Rows, cur: Rows, row: int, order: seq<int>, eps: real, tf: Transfac)
    requires 0 <= row < |n0| && eps != 1.0 && DecreasingOrder(order, n0[row])
    requires SameMI(cur, n0)
    requires cur[row] == n0[row] || cur[row] == ReducedRow(n0, row, order, eps, tf)
    ensures DecreasingOrder(order, cur[row])
    ensures ReducedRow(cur, row, order, eps, tf) == ReducedRow(n0, row, order, eps, tf)
  {
    SameMIKeys(cur[row], n0[row]);
    SameMIOrder(order, cur[row], n0[row]);
    var a := ReducedRow(cur, row, order, eps, tf);
    var b := ReducedRow(n0, row, order, eps, tf);
    assert a.Keys == b.Keys;
    forall k | k in a
      ensures a[k] == b[k]
    {
      ReducedRowAgainAt(n0, cur, row, order, eps, tf, IndexOf(order, k));
    }
    MapsEqual(a, b);
  }

  lemma MapsEqual(a: NodeMap, b: NodeMap)
    requires a.Keys == b.Keys && forall k :: k in a ==> a[k] == b[k]
    ensures a == b
  {
    assert forall k :: k in a ==> k in b && a[k] == b[k];
    assert forall k :: k in b ==> k in a;
  }

  lemma ReducedRowAgainAt(n0: Rows, cur: Rows, row: int, order: seq<int>, eps: real, tf: Transfac, i: int)
    requires 0 <= row < |n0| && eps != 1.0 && DecreasingOrder(order, n0[row]) && 0 <= i < |order|
    requires SameMI(cur, n0) && DecreasingOrder(order, cur[row])
    requires cur[row] == n0[row] || cur[row] == ReducedRow(n0, row, order, eps, tf)
    ensures ReducedRow(cur, row, order, eps, tf)[order[i]] == ReducedRow(n0, row, order, eps, tf)[order[i]]
  {
    SameMIKeys(cur[row], n0[row]);
    ReducedRowAt(cur, row, order, eps, tf, i);
    ReducedRowAt(n0, row, order, eps, tf, i);
    PickSameMI(cur, n0, row, order, i, eps, tf);
    PrunedAgain(n0, cur, row, order, eps, tf, i);
  }

  /** Pruning an entry a second time, with the same pick, changes nothing. */
  lemma PrunedAgain(n0: Rows, cur: Rows, row: int, order: seq<int>, eps: real, tf: Transfac, i: int)
    requires 0 <= row < |n0| && 0 <= row < |cur| && eps != 1.0 && 0 <= i < |order|
    requires forall p :: 0 <= p < |order| ==> order[p] in n0[row] && order[p] in cur[row]
    requires Pick(cur, row, order, i, eps, tf) == Pick(n0, row, order, i, eps, tf)
    requires cur[row][order[i]] == n0[row][order[i]] || cur[row][order[i]] == PrunedNode(n0, row, order, i, eps, tf)
    ensures PrunedNode(cur, row, order, i, eps, tf) == PrunedNode(n0, row, order, i, eps, tf)
  {
    var pick := Pick(n0, row, order, i, eps, tf);
    var node := n0[row][order[i]];
    assert PrunedNode(n0, row, order, i, eps, tf) == if pick.Some? then node.(intermediate := pick.value) else node;
  }

  lemma RowsReducedStep(n0: Rows, nmv: Rows, done: set<int>, row: int, eps: real, tf: Transfac,
                        orders: int -> seq<int>)
    requires eps != 1.0
    requires forall r :: 0 <= r < |n0| ==> DecreasingOrder(orders(r), n0[r])
    requires RowsReduced(n0, nmv, done, eps, tf, orders) && 0 <= row < |n0|
    ensures DecreasingOrder(orders(row), nmv[row])
    ensures RowsReduced(n0, nmv[row := ReducedRow(nmv, row, orders(row), eps, tf)], done + {row}, eps, tf, orders)
  {
    forall r | 0 <= r < |n0|
      ensures MIs(nmv[r]) == MIs(n0[r])
    {
      MIsOfReduced(n0, r, orders(r), eps, tf);
    }
    assert SameMI(nmv, n0);
    ReducedRowAgain(n0, nmv, row, orders(row), eps, tf);
  }

  // ---------------------------------------------------------------------------
  // Reading an ADJ file

  /** The line separator std::getline splits the stream at. */
  const NL: string := "\n"

  predicate StartsWithGt(line: string)
  {
    |line| > 0 && line[0] == '>'
  }

  /** The index of the first piece at or after `k` that does not start with '>'. */
  function HeaderEnd(pieces: seq<string>, k: nat): (h: nat)
    requires k <= |pieces|
    ensures k <= h <= |pieces|
    ensures h < |pieces| ==> !StartsWithGt(pieces[h])
    ensures forall p :: k <= p < h ==> StartsWithGt(pieces[p])
    decreases |pieces| - k
  {
    if k == |pieces| || !StartsWithGt(pieces[k]) then k else HeaderEnd(pieces, k + 1)
  }

  /** The lines of `text` Matrix::read processes: after the leading '>' lines,
      every line the stream is still good after, that is all but the last piece of
      the text split at '\n' (the empty piece after a final newline, or a last line
      with no newline, which is therefore never read). The header loop is taken to
      stop at the end of the stream; ReadAsWritten is the loop as the source has it. */
  function AdjLines(text: string): (r: seq<string>)
  {
    BodyLines(Split(text, NL))
  }

  /** The pieces after the leading '>' pieces, all but the last. */
  function BodyLines(pieces: seq<string>): (r: seq<string>)
  {
    var h := HeaderEnd(pieces, 0);
    if h + 1 < |pieces| then pieces[h..|pieces| - 1] else []
  }

  function NotFound(name: string): string
  {
    "Cannot find marker: " + name + " in the ADJ file!"
  }

  /** What Matrix::read has done when it stops: the rows, the markers (only their
      active flag changes) and whether it threw. */
  datatype Loaded = Loaded(nmv: Rows, markers: seq<Marker>, outcome: Outcome<string>)

  /** The rows after push_back of empty rows until there are at least `n`. */
  function GrowRows(nmv: Rows, n: int): (r: Rows)
    ensures |r| == Max(|nmv|, n)
    ensures forall k :: 0 <= k < |nmv| ==> r[k] == nmv[k]
    ensures forall k :: |nmv| <= k < |r| ==> r[k] == map[]
  {
    if |nmv| >= n then nmv else nmv + seq(n - |nmv|, _ => map[])
  }

  /** The (target, value) pairs of one line from field k on: a pair whose value is
      at least the threshold is saved in row g1, after the target's row exists; an
      unknown target throws. A last field without a value is ignored. */
  function PairsLoad(nmv: Rows, ms: seq<Marker>, g1: int, f: seq<string>, k: nat,
                     threshold: real, atof: string -> real): Loaded
    requires 0 <= g1 < |nmv|
    decreases |f| - k
  {
    if k + 1 >= |f| then Loaded(nmv, ms, Pass)
    else
      var st := PairStep(nmv, ms, g1, f[k], f[k + 1], threshold, atof);
      if st.error.Some? then Loaded(st.nmv, ms, Fail(st.error.value))
      else PairsLoad(st.nmv, ms, g1, f, k + 2, threshold, atof)
  }

  lemma PairsLoadStep(nmv: Rows, ms: seq<Marker>, g1: int, f: seq<string>, k: nat,
                      threshold: real, atof: string -> real)
    requires 0 <= g1 < |nmv| && k + 1 < |f|
    ensures var st := PairStep(nmv, ms, g1, f[k], f[k + 1], threshold, atof);
      PairsLoad(nmv, ms, g1, f, k, threshold, atof) ==
        if st.error.Some? then Loaded(st.nmv, ms, Fail(st.error.value))
        else PairsLoad(st.nmv, ms, g1, f, k + 2, threshold, atof)
  {
  }

  /** The rows after one pair, and the error it throws if any. */
  datatype Step = Step(nmv: Rows, error: Option<string>)

  /** One (target, value) pair of hub g1: below the threshold nothing happens; an
      unknown target throws before anything changes; otherwise the target's row is
      made to exist and the edge is saved in the hub's row. */
  function PairStep(nmv: Rows, ms: seq<Marker>, g1: int, target: string, value: string,
                    threshold: real, atof: string -> real): (r: Step)
    requires 0 <= g1 < |nmv|
    ensures 0 <= g1 < |r.nmv|
  {
    var mi := atof(value);
    if mi < threshold then Step(nmv, None)
    else
      var g2 := ProbeId(ms, "_" + target);
      if g2 == -1 then Step(nmv, Some(NotFound("_" + target)))
      else Step(Save(GrowRows(nmv, g2 + 1), g1, g2, mi), None)
  }

  /** A pair that is saved stores its value in the hub's row under the target's id,
      and leaves every other edge as it was. */
  lemma PairStepSaves(nmv: Rows, ms: seq<Marker>, g1: int, target: string, value: string,
                      threshold: real, atof: string -> real)
    requires 0 <= g1 < |nmv|
    ensures var st := PairStep(nmv, ms, g1, target, value, threshold, atof);
      var g2 := ProbeId(ms, "_" + target);
      (atof(value) < threshold ==> st == Step(nmv, None)) &&
      (atof(value) >= threshold && g2 == -1 ==> st == Step(nmv, Some(NotFound("_" + target)))) &&
      (atof(value) >= threshold && g2 != -1 ==>
        0 <= g2 < |st.nmv| && st.error.None? && g2 in st.nmv[g1] && st.nmv[g1][g2].mutinfo == atof(value) &&
        forall i, k :: 0 <= i < |nmv| && k in nmv[i] && (i, k) != (g1, g2) ==> k in st.nmv[i] && st.nmv[i][k] == nmv[i][k])
  {
    PrefixedLabel(ms, target);
  }

  /** One line of the ADJ file: the hub (field 0) must be a known marker, which is
      made active and given a row; then its pairs. */
  function LineLoad(nmv: Rows, ms: seq<Marker>, line: string, threshold: real, atof: string -> real): Loaded
  {
    var f := Split(line, "\t");
    var g1 := ProbeId(ms, "_" + f[0]);
    if g1 == -1 then Loaded(nmv, ms, Fail(NotFound("_" + f[0])))
    else
      PrefixedLabel(ms, f[0]);
      PairsLoad(GrowRows(nmv, g1 + 1), ms[g1 := ms[g1].(isActive := true)], g1, f, 1, threshold, atof)
  }

  /** The lines in turn, up to the first that throws. */
  function LinesLoad(nmv: Rows, ms: seq<Marker>, lines: seq<string>, threshold: real,
                     atof: string -> real): Loaded
    decreases |lines|
  {
    if |lines| == 0 then Loaded(nmv, ms, Pass)
    else
      var l := LineLoad(nmv, ms, lines[0], threshold, atof);
      if l.outcome.Fail? then l else LinesLoad(l.nmv, l.markers, lines[1..], threshold, atof)
  }

  lemma LinesLoadStep(nmv: Rows, ms: seq<Marker>, lines: seq<string>, p: int, threshold: real,
                      atof: string -> real)
    requires 0 <= p < |lines|
    ensures LinesLoad(nmv, ms, lines[p..], threshold, atof) ==
      var l := LineLoad(nmv, ms, lines[p], threshold, atof);
      if l.outcome.Fail? then l else LinesLoad(l.nmv, l.markers, lines[p + 1..], threshold, atof)
  {
    assert lines[p..][0] == lines[p];
    assert lines[p..][1..] == lines[p + 1..];
  }

  /** The header loop of Matrix::read: the index of the first line that does not
      start with '>', or the number of lines when every one does. */
  method SkipHeader(pieces: seq<string>) returns (h: nat)
    ensures h == HeaderEnd(pieces, 0)
  {
    h := 0;
    while h < |pieces| && StartsWithGt(pieces[h])
      invariant 0 <= h <= |pieces| && HeaderEnd(pieces, h) == HeaderEnd(pieces, 0)
    {
      h := h + 1;
    }
  }

  /** Matrix::read(istream, data, p) on the whole text of the stream. */
  function ReadSpec(nmv: Rows, ms: seq<Marker>, text: string, threshold: real, atof: string -> real): Loaded
  {
    LinesLoad(nmv, ms, AdjLines(text), threshold, atof)
  }

  /** How Matrix::read, as written, ends: it returns with what it loaded, or it
      never returns. */
  datatype ReadRun = Returns(loaded: Loaded) | Hangs

  /** Matrix::read as written. The header loop calls std::getline again whenever
      the line starts with '>'. Once the stream is at its end, getline fails and
      leaves the line as it was, so when every piece, the last one included (which
      then has no newline after it), starts with '>', the loop never ends.
      Otherwise the lines processed are those of ReadSpec. */
  function ReadAsWritten(nmv: Rows, ms: seq<Marker>, text: string, threshold: real,
                         atof: string -> real): ReadRun
  {
    ReadPieces(nmv, ms, Split(text, NL), threshold, atof)
  }

  /** Matrix::read as written on the text split at its newlines. */
  function ReadPieces(nmv: Rows, ms: seq<Marker>, pieces: seq<string>, threshold: real,
                      atof: string -> real): ReadRun
  {
    var h := HeaderEnd(pieces, 0);
    if h == |pieces| then Hangs
    else Returns(LinesLoad(nmv, ms, pieces[h..|pieces| - 1], threshold, atof))
  }

  /** Matrix::read as written runs off the end exactly when every piece starts with
      '>'; otherwise it loads the body lines. */
  lemma ReadPiecesHangs(nmv: Rows, ms: seq<Marker>, pieces: seq<string>, threshold: real, atof: string -> real)
    ensures ReadPieces(nmv, ms, pieces, threshold, atof).Hangs? <==>
      forall p :: 0 <= p < |pieces| ==> StartsWithGt(pieces[p])
    ensures ReadPieces(nmv, ms, pieces, threshold, atof).Returns? ==>
      ReadPieces(nmv, ms, pieces, threshold, atof).loaded == LinesLoad(nmv, ms, BodyLines(pieces), threshold, atof)
  {
    var h := HeaderEnd(pieces, 0);
    if h < |pieces| {
      assert !StartsWithGt(pieces[h]);
      assert pieces[h..|pieces| - 1] == BodyLines(pieces);
    }
  }

  /** Matrix::read as written hangs exactly on a text whose every line starts
      with '>', and such a text does not end with a newline; on any other text it
      returns what ReadSpec loads. */
  lemma ReadAsWrittenHangs(nmv: Rows, ms: seq<Marker>, text: string, threshold: real, atof: string -> real)
    ensures ReadAsWritten(nmv, ms, text, threshold, atof).Hangs? <==>
      forall p :: 0 <= p < |Split(text, NL)| ==> StartsWithGt(Split(text, NL)[p])
    ensures ReadAsWritten(nmv, ms, text, threshold, atof).Hangs? ==> |text| > 0 && text[|text| - 1] != '\n'
    ensures ReadAsWritten(nmv, ms, text, threshold, atof).Returns? ==>
      ReadAsWritten(nmv, ms, text, threshold, atof).loaded == ReadSpec(nmv, ms, text, threshold, atof)
  {
    ReadPiecesHangs(nmv, ms, Split(text, NL), threshold, atof);
    assert ReadAsWritten(nmv, ms, text, threshold, atof) == ReadPieces(nmv, ms, Split(text, NL), threshold, atof);
    assert ReadPieces(nmv, ms, Split(text, NL), threshold, atof).Hangs? <==> forall p :: 0 <= p < |Split(text, NL)| ==> StartsWithGt(Split(text, NL)[p]);
    if ReadAsWritten(nmv, ms, text, threshold, atof).Hangs? {
      AllHeaderNoFinalNewline(text);
    }
  }

  /** A text whose every piece starts with '>' does not end with a newline: its
      last piece, which follows the last newline, is not empty. */
  lemma AllHeaderNoFinalNewline(text: string)
    requires forall p :: 0 <= p < |Split(text, NL)| ==> StartsWithGt(Split(text, NL)[p])
    ensures |text| > 0 && text[|text| - 1] != '\n'
  {
    assert StartsWithGt(Split(text, NL)[|Split(text, NL)| - 1]);
    LastPieceEnds(text, NL);
  }

  /** When the last piece of a split at a one-character separator is not empty,
      the text does not end with that character. */
  lemma LastPieceEnds(text: string, sep: string)
    requires |sep| == 1 && |Last(Split(text, sep))| > 0
    ensures |text| > 0 && text[|text| - 1] != sep[0]
  {
    JoinSplit(text, sep);
    SplitLastFree(text, sep);
    JoinLastChar(text, Split(text, sep), sep);
  }

  lemma JoinLastChar(text: string, pieces: seq<string>, sep: string)
    requires |sep| == 1 && |pieces| > 0 && |Last(pieces)| > 0 && Join(pieces, sep) == text
    requires forall j :: !OccursAt(Last(pieces), sep, j)
    ensures |text| > 0 && text[|text| - 1] != sep[0]
  {
    var last := Last(pieces);
    var m := |last|;
    JoinEndsWithLast(pieces, sep);
    assert !OccursAt(last, sep, m - 1);
    assert last[m - 1..m] == [last[m - 1]];
  }

  /** A single '>' line without a newline: the source never returns, while the
      intended reading loads nothing and passes. */
  lemma HeaderWithoutNewline(nmv: Rows, ms: seq<Marker>, threshold: real, atof: string -> real)
    ensures ReadAsWritten(nmv, ms, ">h", threshold, atof) == Hangs
    ensures ReadSpec(nmv, ms, ">h", threshold, atof) == Loaded(nmv, ms, Pass)
  {
    forall j
      ensures !OccursAt(">h", NL, j)
    {
      if 0 <= j < 2 {
        assert ">h"[j..j + 1][0] == ">h"[j];
      }
    }
    SplitWithoutSep(">h", NL);
  }

  /** The intended reading of a text made only of '>' lines loads nothing and
      passes, whether or not its last line ends with a newline. */
  lemma HeaderOnlyLoadsNothing(nmv: Rows, ms: seq<Marker>, text: string, threshold: real, atof: string -> real)
    requires forall p :: 0 <= p < |Split(text, NL)| - 1 ==> StartsWithGt(Split(text, NL)[p])
    ensures ReadSpec(nmv, ms, text, threshold, atof) == Loaded(nmv, ms, Pass)
  {
    var pieces := Split(text, NL);
    assert HeaderEnd(pieces, 0) >= |pieces| - 1 by {
      HeaderEndPast(pieces, 0);
    }
  }

  lemma {:induction false} HeaderEndPast(pieces: seq<string>, k: nat)
    requires k <= |pieces|
    requires forall p :: k <= p < |pieces| - 1 ==> StartsWithGt(pieces[p])
    ensures HeaderEnd(pieces, k) >= |pieces| - 1
    decreases |pieces| - k
  {
    if k < |pieces| && StartsWithGt(pieces[k]) {
      HeaderEndPast(pieces, k + 1);
    }
  }

  /** Every stored edge is at least the threshold. */
  ghost predicate AboveThreshold(nmv: Rows, threshold: real)
  {
    forall i, k :: 0 <= i < |nmv| && k in nmv[i] ==> nmv[i][k].mutinfo >= threshold
  }

  /** Every row and every neighbour is a marker of `ms`. */
  ghost predicate Within(nmv: Rows, ms: seq<Marker>)
  {
    |nmv| <= |ms| && forall i, k :: 0 <= i < |nmv| && k in nmv[i] ==> 0 <= k < |ms|
  }

  lemma {:induction false} PairsLoadKeeps(nmv: Rows, ms: seq<Marker>, g1: int, f: seq<string>, k: nat,
                                          threshold: real, atof: string -> real)
    requires 0 <= g1 < |nmv|
    requires AboveThreshold(nmv, threshold) && Within(nmv, ms)
    ensures var l := PairsLoad(nmv, ms, g1, f, k, threshold, atof);
      AboveThreshold(l.nmv, threshold) && Within(l.nmv, ms) && l.markers == ms
    decreases |f| - k
  {
    if k + 1 < |f| {
      PairStepKeeps(nmv, ms, g1, f[k], f[k + 1], threshold, atof);
      var st := PairStep(nmv, ms, g1, f[k], f[k + 1], threshold, atof);
      if st.error.None? {
        PairsLoadKeeps(st.nmv, ms, g1, f, k + 2, threshold, atof);
      }
    }
  }

  lemma PairStepKeeps(nmv: Rows, ms: seq<Marker>, g1: int, target: string, value: string,
                      threshold: real, atof: string -> real)
    requires 0 <= g1 < |nmv|
    requires AboveThreshold(nmv, threshold) && Within(nmv, ms)
    ensures var st := PairStep(nmv, ms, g1, target, value, threshold, atof);
      AboveThreshold(st.nmv, threshold) && Within(st.nmv, ms)
  {
    var mi := atof(value);
    if mi >= threshold {
      PrefixedLabel(ms, target);
      var g2 := ProbeId(ms, "_" + target);
      if g2 != -1 {
        SaveKeeps(GrowRows(nmv, g2 + 1), ms, g1, g2, mi, threshold);
      }
    }
  }

  lemma SaveKeeps(nmv: Rows, ms: seq<Marker>, g1: int, g2: int, mi: real, threshold: real)
    requires 0 <= g1 < |nmv| && 0 <= g2 < |ms| && mi >= threshold
    requires AboveThreshold(nmv, threshold) && Within(nmv, ms)
    ensures AboveThreshold(Save(nmv, g1, g2, mi), threshold) && Within(Save(nmv, g1, g2, mi), ms)
  {
    var saved: Rows := Save(nmv, g1, g2, mi);
    forall i: int, k: int | 0 <= i < |saved| && k in saved[i]
      ensures saved[i][k].mutinfo >= threshold && 0 <= k < |ms|
    {
      if i != g1 || k != g2 {
        assert k in nmv[i] && saved[i][k] == nmv[i][k];
      }
    }
  }

  lemma LineLoadKeeps(nmv: Rows, ms: seq<Marker>, line: string, threshold: real, atof: string -> real)
    requires AboveThreshold(nmv, threshold) && Within(nmv, ms)
    ensures var l := LineLoad(nmv, ms, line, threshold, atof);
      AboveThreshold(l.nmv, threshold) && Within(l.nmv, l.markers) && |l.markers| == |ms|
  {
    var f := Split(line, "\t");
    PrefixedLabel(ms, f[0]);
    var g1 := ProbeId(ms, "_" + f[0]);
    if g1 != -1 {
      var ms' := ms[g1 := ms[g1].(isActive := true)];
      var grown := GrowRows(nmv, g1 + 1);
      assert Within(grown, ms');
      PairsLoadKeeps(grown, ms', g1, f, 1, threshold, atof);
    }
  }

  /** Reading an ADJ file keeps every stored edge at or above the threshold and
      every row and neighbour a known marker, and leaves the number of markers. */
  lemma {:induction false} ReadKeeps(nmv: Rows, ms: seq<Marker>, lines: seq<string>, threshold: real,
                                     atof: string -> real)
    requires AboveThreshold(nmv, threshold) && Within(nmv, ms)
    ensures var l := LinesLoad(nmv, ms, lines, threshold, atof);
      AboveThreshold(l.nmv, threshold) && Within(l.nmv, l.markers) && |l.markers| == |ms|
    decreases |lines|
  {
    if |lines| > 0 {
      LineLoadKeeps(nmv, ms, lines[0], threshold, atof);
      var l := LineLoad(nmv, ms, lines[0], threshold, atof);
      if l.outcome.Pass? {
        ReadKeeps(l.nmv, l.markers, lines[1..], threshold, atof);
      }
    }
  }

  /** A line's hub is made active only when it is a known marker: a known hub with
      no pair above the threshold is given a row and nothing else. */
  lemma HubOnly(nmv: Rows, ms: seq<Marker>, line: string, threshold: real, atof: string -> real)
    requires |Split(line, "\t")| <= 2
    ensures var f := Split(line, "\t");
      var g1 := ProbeId(ms, "_" + f[0]);
      var l := LineLoad(nmv, ms, line, threshold, atof);
      (g1 == -1 ==> l == Loaded(nmv, ms, Fail(NotFound("_" + f[0])))) &&
      (g1 != -1 ==> (0 <= g1 < |ms| &&
                     l == Loaded(GrowRows(nmv, g1 + 1), ms[g1 := ms[g1].(isActive := true)], Pass)))
  {
    PrefixedLabel(ms, Split(line, "\t")[0]);
  }

  predicate NoNewline(line: string)
  {
    forall k :: 0 <= k < |line| ==> line[k] != '\n'
  }

  /** A last line without a newline is not read: a text of one such line has no
      line to process, while the same line followed by a newline is processed. */
  lemma UnterminatedLastLine(line: string)
    requires NoNewline(line) && !StartsWithGt(line)
    ensures AdjLines(line) == []
    ensures AdjLines(line + NL) == [line]
  {
    forall j | 0 <= j < |line|
      ensures !OccursAt(line, NL, j) && !OccursAt(line + NL, NL, j)
    {
      assert line[j] != '\n';
      assert (line + NL)[j] == line[j];
      assert line[j..j + 1][0] == line[j];
      assert (line + NL)[j..j + 1][0] == line[j];
    }
    SplitWithoutSep(line, NL);
    SplitPair(line, NL, "");
    assert line + NL + "" == line + NL;
  }

  // ---------------------------------------------------------------------------
  // Writing the lines of the matrix

  /** Every accession carries the '_' the reader puts in front of it. */
  ghost predicate Prefixed(ms: seq<Marker>)
  {
    forall i :: 0 <= i < |ms| ==> |ms[i].accnum| >= 1
  }

  /** accnum.substr(1): the accession without its '_'. */
  function Accession(m: Marker): string
    requires |m.accnum| >= 1
  {
    m.accnum[1..]
  }

  /** A neighbour is written unless the triangular mode hides ids up to the row's
      own, or the reduced mode is off and the edge has an intermediate. */
  predicate Shown(m: NodeMap, geneId: int, id: int, triangular: bool, reduced: bool)
    requires id in m
  {
    !((triangular && id <= geneId) || (!reduced && m[id].intermediate >= 0))
  }

  predicate Increasing(s: seq<int>)
  {
    forall p, q :: 0 <= p < q < |s| ==> s[p] < s[q]
  }

  /** The ids of `s` that are shown, in their order. */
  function ShownOf(m: NodeMap, geneId: int, s: seq<int>, triangular: bool, reduced: bool): (r: seq<int>)
    requires forall x :: x in s ==> x in m
    ensures forall x :: x in r <==> x in s && Shown(m, geneId, x, triangular, reduced)
    ensures Increasing(s) ==> Increasing(r)
  {
    if |s| == 0 then []
    else
      var x := s[|s| - 1];
      var front := s[..|s| - 1];
      assert s == front + [x];
      var init := ShownOf(m, geneId, front, triangular, reduced);
      if Shown(m, geneId, x, triangular, reduced) then
        assert Increasing(s) ==> forall p :: 0 <= p < |init| ==> init[p] < x by {
          if Increasing(s) {
            forall p | 0 <= p < |init|
              ensures init[p] < x
            {
              assert init[p] in init;
              assert init[p] in front;
              var q :| 0 <= q < |front| && front[q] == init[p];
              assert s[q] == front[q];
            }
          }
        }
        init + [x]
      else init
  }

  /** `x` is the smallest element of `s`. */
  predicate IsMin(s: set<int>, x: int)
  {
    x in s && forall y :: y in s ==> x <= y
  }

  lemma NonEmptyHasElement(s: set<int>)
    requires s != {}
    ensures exists x :: x in s
  {
    if forall x :: x !in s {
      assert false;
    }
  }

  lemma {:induction false} MinExists(s: set<int>)
    requires s != {}
    ensures exists x :: IsMin(s, x)
    decreases |s|
  {
    NonEmptyHasElement(s);
    var x :| x in s;
    if s == {x} {
      assert IsMin(s, x);
    } else {
      MinExists(s - {x});
      var z :| IsMin(s - {x}, z);
      var m := if x < z then x else z;
      forall y | y in s
        ensures m <= y
      {
        if y != x {
          assert y in s - {x};
        }
      }
      assert IsMin(s, m);
    }
  }
  lemma MinUnique(s: set<int>, x: int, z: int)
    requires IsMin(s, x) && IsMin(s, z)
    ensures x == z
  {
  }

  /** The elements of a set of integers in increasing order (the iteration order of
      std::map). */
  ghost function AscendingOf(s: set<int>): (r: seq<int>)
    ensures Increasing(r)
    ensures forall x :: x in r <==> x in s
    decreases |s|
  {
    if s == {} then []
    else
      MinExists(s);
      var x :| IsMin(s, x);
      var rest := AscendingOf(s - {x});
      assert forall p :: 0 <= p < |rest| ==> x < rest[p] by {
        forall p | 0 <= p < |rest|
          ensures x < rest[p]
        {
          assert rest[p] in rest;
        }
      }
      [x] + rest
  }

  method AscendingKeys(s: set<int>) returns (r: seq<int>)
    ensures r == AscendingOf(s)
  {
    var rest := s;
    r := [];
    while rest != {}
      invariant r + AscendingOf(rest) == AscendingOf(s)
      decreases |rest|
    {
      MinExists(rest);
      var x :| IsMin(rest, x);
      AscendingKeysStep(s, r, rest, x);
      r := r + [x];
      rest := rest - {x};
    }
    assert AscendingOf(rest) == [];
  }

  lemma AscendingKeysStep(s: set<int>, r: seq<int>, rest: set<int>, x: int)
    requires r + AscendingOf(rest) == AscendingOf(s) && IsMin(rest, x)
    ensures (r + [x]) + AscendingOf(rest - {x}) == AscendingOf(s)
    ensures |rest - {x}| < |rest|
  {
    AscendingStep(rest, x);
    assert (r + [x]) + AscendingOf(rest - {x}) == r + ([x] + AscendingOf(rest - {x}));
  }

  lemma AscendingStep(s: set<int>, x: int)
    requires IsMin(s, x)
    ensures AscendingOf(s) == [x] + AscendingOf(s - {x})
  {
    MinExists(s);
    var z :| IsMin(s, z) && AscendingOf(s) == [z] + AscendingOf(s - {z});
    MinUnique(s, x, z);
  }

  /** The neighbours writeGeneLine writes for row `geneId`, in increasing id. */
  ghost function ShownIds(m: NodeMap, geneId: int, triangular: bool, reduced: bool): (r: seq<int>)
    ensures Increasing(r)
    ensures forall x :: x in r <==> x in m && Shown(m, geneId, x, triangular, reduced)
    ensures forall p :: 0 <= p < |r| ==> r[p] in m
  {
    var r := ShownOf(m, geneId, AscendingOf(m.Keys), triangular, reduced);
    assert forall p :: 0 <= p < |r| ==> r[p] in r;
    r
  }

  /** One written neighbour: tab, accession, ".intermediate" when there is one,
      tab, the mutual information as the stream formats it. */
  function Cell(ms: seq<Marker>, id: int, node: Node, fmt: real -> string): string
    requires 0 <= id < |ms| && |ms[id].accnum| >= 1
  {
    var head := "\t" + Accession(ms[id]);
    var named := if node.intermediate >= 0 then head + "." + NatToString(node.intermediate) else head;
    named + "\t" + fmt(node.mutinfo)
  }

  function Cells(m: NodeMap, ms: seq<Marker>, ids: seq<int>, fmt: real -> string): string
    requires Prefixed(ms)
    requires forall x :: x in ids ==> x in m && 0 <= x < |ms|
  {
    if |ids| == 0 then ""
    else
      var x := ids[|ids| - 1];
      var init := ids[..|ids| - 1];
      assert ids == init + [x];
      PrefixMembers(ids, |ids| - 1);
      assert x in ids && x in m && 0 <= x < |ms| && |ms[x].accnum| >= 1;
      Cells(m, ms, init, fmt) + Cell(ms, x, m[x], fmt)
  }

  /** The cells of the shown ids among the first p of `keys`. */
  function ShownCells(m: NodeMap, ms: seq<Marker>, geneId: int, keys: seq<int>, p: int,
                      triangular: bool, reduced: bool, fmt: real -> string): string
    requires Prefixed(ms)
    requires forall x :: x in keys ==> x in m && 0 <= x < |ms|
    requires 0 <= p <= |keys|
  {
    PrefixMembers(keys, p);
    Cells(m, ms, ShownOf(m, geneId, keys[..p], triangular, reduced), fmt)
  }

  lemma ShownCellsStep(m: NodeMap, ms: seq<Marker>, geneId: int, keys: seq<int>, p: int,
                       triangular: bool, reduced: bool, fmt: real -> string)
    requires Prefixed(ms)
    requires forall x :: x in keys ==> x in m && 0 <= x < |ms|
    requires 0 <= p < |keys|
    ensures Shown(m, geneId, keys[p], triangular, reduced) ==>
      ShownCells(m, ms, geneId, keys, p + 1, triangular, reduced, fmt) ==
      ShownCells(m, ms, geneId, keys, p, triangular, reduced, fmt) + Cell(ms, keys[p], m[keys[p]], fmt)
    ensures !Shown(m, geneId, keys[p], triangular, reduced) ==>
      ShownCells(m, ms, geneId, keys, p + 1, triangular, reduced, fmt) ==
      ShownCells(m, ms, geneId, keys, p, triangular, reduced, fmt)
  {
    var front := keys[..p + 1];
    assert front[..p] == keys[..p];
    assert forall x :: x in front ==> x in keys;
    var before := ShownOf(m, geneId, keys[..p], triangular, reduced);
    assert (before + [keys[p]])[..|before|] == before;
  }

  lemma PrefixMembers(s: seq<int>, n: int)
    requires 0 <= n <= |s|
    ensures forall y :: y in s[..n] ==> y in s
  {
    forall y | y in s[..n]
      ensures y in s
    {
      var p :| 0 <= p < n && s[..n][p] == y;
      assert s[p] == y;
    }
  }

  /** Over all of the ascending keys, ShownCells is the cells of ShownIds. */
  lemma ShownCellsAll(m: NodeMap, ms: seq<Marker>, geneId: int, keys: seq<int>,
                      triangular: bool, reduced: bool, fmt: real -> string)
    requires Prefixed(ms) && keys == AscendingOf(m.Keys)
    requires forall x :: x in keys ==> x in m && 0 <= x < |ms|
    ensures ShownCells(m, ms, geneId, keys, |keys|, triangular, reduced, fmt) ==
            Cells(m, ms, ShownIds(m, geneId, triangular, reduced), fmt)
  {
    assert keys[..|keys|] == keys;
  }

  lemma Associative(a: string, b: string, c: string)
    ensures (a + b) + c == a + (b + c)
  {
  }

  /** A row with no edge is skipped unless empty genes are written and its marker
      is active or a control. */
  predicate Skipped(m: NodeMap, marker: Marker, writeEmptyGenes: bool)
  {
    |m| == 0 && (!writeEmptyGenes || (!marker.isActive && !marker.isControl))
  }

  /** The text writeGeneLine writes for row `geneId`. */
  ghost function GeneLineText(nmv: Rows, ms: seq<Marker>, geneId: int, triangular: bool, reduced: bool,
                              writeEmptyGenes: bool, fmt: real -> string): string
    requires 0 <= geneId < |nmv| && geneId < |ms| && Prefixed(ms) && Within(nmv, ms)
  {
    var m := nmv[geneId];
    if Skipped(m, ms[geneId], writeEmptyGenes) then ""
    else Accession(ms[geneId]) + Cells(m, ms, ShownIds(m, geneId, triangular, reduced), fmt) + "\n"
  }

  /** The ids 0 .. n - 1 in order. */
  function AllRows(n: nat): (r: seq<int>)
    ensures |r| == n && forall p :: 0 <= p < n ==> r[p] == p
  {
    seq(n, p => p)
  }

  /** The text write(out, data, ids) writes: the lines of `rows` one after another. */
  ghost function WriteText(nmv: Rows, ms: seq<Marker>, rows: seq<int>, triangular: bool, reduced: bool,
                           writeEmptyGenes: bool, fmt: real -> string): string
    requires Prefixed(ms) && Within(nmv, ms)
    requires forall p :: 0 <= p < |rows| ==> 0 <= rows[p] < |nmv|
  {
    if |rows| == 0 then ""
    else
      WriteText(nmv, ms, rows[..|rows| - 1], triangular, reduced, writeEmptyGenes, fmt) +
      GeneLineText(nmv, ms, rows[|rows| - 1], triangular, reduced, writeEmptyGenes, fmt)
  }

  lemma WriteTextStep(nmv: Rows, ms: seq<Marker>, rows: seq<int>, p: int, triangular: bool, reduced: bool,
                      writeEmptyGenes: bool, fmt: real -> string)
    requires Prefixed(ms) && Within(nmv, ms)
    requires forall q :: 0 <= q < |rows| ==> 0 <= rows[q] < |nmv|
    requires 0 <= p < |rows|
    ensures WriteText(nmv, ms, rows[..p + 1], triangular, reduced, writeEmptyGenes, fmt) ==
      WriteText(nmv, ms, rows[..p], triangular, reduced, writeEmptyGenes, fmt) +
      GeneLineText(nmv, ms, rows[p], triangular, reduced, writeEmptyGenes, fmt)
  {
    assert rows[..p + 1][..p] == rows[..p];
  }

  /** In triangular mode (reduced edges written) each edge of a symmetric matrix is
      written on exactly one of its two rows. */
  lemma TriangularWritesOnce(nmv: Rows, i: int, k: int)
    requires Symmetric(nmv)
    requires 0 <= i < |nmv| && k in nmv[i] && k != i
    ensures 0 <= k < |nmv| && i in nmv[k] &&
      (k in ShownIds(nmv[i], i, true, true) <==> i !in ShownIds(nmv[k], k, true, true))
  {
    SymmetricAt(nmv, i, k);
    assert k in ShownIds(nmv[i], i, true, true) <==> k > i;
    assert i in ShownIds(nmv[k], k, true, true) <==> i > k;
  }

  /** Without the triangular mode and with reduced edges written, every neighbour
      of the row is written; without reduced edges, exactly those with no
      intermediate. */
  lemma FullRowWritten(m: NodeMap, geneId: int, x: int)
    ensures x in ShownIds(m, geneId, false, true) <==> x in m
    ensures x in ShownIds(m, geneId, false, false) <==> x in m && m[x].intermediate < 0
  {
  }

  // ---------------------------------------------------------------------------
  // computeOneRow

  /** calculateMI: 0 for the same gene; otherwise the pairwise estimate (left
      abstract), 0 below the threshold, itself when there is no noise correction,
      else the corrected value (left abstract). */
  function CalculateMI(ms: seq<Marker>, i: int, j: int, threshold: real, noise2: real,
                       pairwise: (int, int) -> real, correct: (int, int, real) -> real): (r: real)
    requires i == j || (0 <= i < |ms| && 0 <= j < |ms|)
    ensures SameGene(ms, i, j) ==> r == 0.0
    ensures !SameGene(ms, i, j) && pairwise(i, j) < threshold ==> r == 0.0
    ensures !SameGene(ms, i, j) && pairwise(i, j) >= threshold && noise2 <= 0.0 ==> r == pairwise(i, j)
  {
    if SameGene(ms, i, j) then 0.0
    else
      var mi := pairwise(i, j);
      if mi < threshold then 0.0
      else if noise2 <= 0.0 then mi
      else correct(i, j, mi)
  }

  /** The rows after computeOneRow's loop from column j: each column other than the
      control whose marker is active is computed, and a non-zero value is added. */
  function RowEdges(nmv: Rows, ms: seq<Marker>, row: int, j: int, numMarkers: int, controlId: int,
                    symmetric: bool, threshold: real, noise2: real,
                    pairwise: (int, int) -> real, correct: (int, int, real) -> real): (r: Rows)
    requires 0 <= row < |nmv| && row < |ms| && 0 <= j && numMarkers <= |ms|
    requires symmetric ==> numMarkers <= |nmv|
    ensures |r| == |nmv|
    decreases numMarkers - j
  {
    if j >= numMarkers then nmv
    else if j != controlId && ms[j].isActive then
      var edge := CalculateMI(ms, row, j, threshold, noise2, pairwise, correct);
      if edge != 0.0 then
        RowEdges(Add(nmv, row, j, edge, symmetric), ms, row, j + 1, numMarkers, controlId, symmetric,
                 threshold, noise2, pairwise, correct)
      else RowEdges(nmv, ms, row, j + 1, numMarkers, controlId, symmetric, threshold, noise2, pairwise, correct)
    else RowEdges(nmv, ms, row, j + 1, numMarkers, controlId, symmetric, threshold, noise2, pairwise, correct)
  }

  /** Every edge computeOneRow adds to its row goes to an active column at or after
      the first one, other than the control and the row's own gene, and holds the
      non-zero calculateMI value; with no noise correction that value is at least
      the threshold. Edges already in the row keep their keys. */
  lemma {:induction false} RowEdgesAdds(nmv: Rows, ms: seq<Marker>, row: int, j: int, numMarkers: int,
                                        controlId: int, symmetric: bool, threshold: real, noise2: real,
                                        pairwise: (int, int) -> real, correct: (int, int, real) -> real, k: int)
    requires 0 <= row < |nmv| && row < |ms| && 0 <= j && numMarkers <= |ms|
    requires symmetric ==> numMarkers <= |nmv|
    requires k !in nmv[row]
    ensures var r := RowEdges(nmv, ms, row, j, numMarkers, controlId, symmetric, threshold, noise2, pairwise, correct);
      k in r[row] ==>
        j <= k < numMarkers && k != controlId && k != row && ms[k].isActive &&
        r[row][k].mutinfo == CalculateMI(ms, row, k, threshold, noise2, pairwise, correct) &&
        r[row][k].mutinfo != 0.0 &&
        (noise2 <= 0.0 ==> r[row][k].mutinfo >= threshold)
    decreases numMarkers - j
  {
    if j < numMarkers && j != controlId && ms[j].isActive {
      var edge := CalculateMI(ms, row, j, threshold, noise2, pairwise, correct);
      if edge != 0.0 {
        var n1 := Add(nmv, row, j, edge, symmetric);
        AddStores(nmv, row, j, edge, symmetric);
        if j == row {
          assert SameGene(ms, row, row);
        }
        if k == j {
          RowEdgesKeeps(n1, ms, row, j + 1, numMarkers, controlId, symmetric, threshold, noise2, pairwise, correct, k);
        } else {
          assert k !in n1[row] by {
            if symmetric && j == row {
            } else {
              assert n1[row].Keys == nmv[row].Keys + {j} || (symmetric && row == j);
            }
          }
          RowEdgesAdds(n1, ms, row, j + 1, numMarkers, controlId, symmetric, threshold, noise2, pairwise, correct, k);
        }
      } else {
        RowEdgesAdds(nmv, ms, row, j + 1, numMarkers, controlId, symmetric, threshold, noise2, pairwise, correct, k);
      }
    } else if j < numMarkers {
      RowEdgesAdds(nmv, ms, row, j + 1, numMarkers, controlId, symmetric, threshold, noise2, pairwise, correct, k);
    }
  }

  /** A column before the loop's start is never saved again in the row. */
  lemma {:induction false} RowEdgesKeeps(nmv: Rows, ms: seq<Marker>, row: int, j: int, numMarkers: int,
                                         controlId: int, symmetric: bool, threshold: real, noise2: real,
                                         pairwise: (int, int) -> real, correct: (int, int, real) -> real, k: int)
    requires 0 <= row < |nmv| && row < |ms| && 0 <= j && numMarkers <= |ms|
    requires symmetric ==> numMarkers <= |nmv|
    requires k < j && k != row && k in nmv[row]
    ensures var r := RowEdges(nmv, ms, row, j, numMarkers, controlId, symmetric, threshold, noise2, pairwise, correct);
      k in r[row] && r[row][k] == nmv[row][k]
    decreases numMarkers - j
  {
    if j < numMarkers && j != controlId && ms[j].isActive {
      var edge := CalculateMI(ms, row, j, threshold, noise2, pairwise, correct);
      if edge != 0.0 {
        var n1 := Add(nmv, row, j, edge, symmetric);
        AddStores(nmv, row, j, edge, symmetric);
        RowEdgesKeeps(n1, ms, row, j + 1, numMarkers, controlId, symmetric, threshold, noise2, pairwise, correct, k);
      } else {
        RowEdgesKeeps(nmv, ms, row, j + 1, numMarkers, controlId, symmetric, threshold, noise2, pairwise, correct, k);
      }
    } else if j < numMarkers {
      RowEdgesKeeps(nmv, ms, row, j + 1, numMarkers, controlId, symmetric, threshold, noise2, pairwise, correct, k);
    }
  }

  /** Conversely, every active column at or after the first one, other than the
      control, whose calculateMI value is non-zero ends up in the row with that value. */
  lemma {:induction false} RowEdgesComplete(nmv: Rows, ms: seq<Marker>, row: int, j: int, numMarkers: int,
                                            controlId: int, symmetric: bool, threshold: real, noise2: real,
                                            pairwise: (int, int) -> real, correct: (int, int, real) -> real, k: int)
    requires 0 <= row < |nmv| && row < |ms| && 0 <= j && numMarkers <= |ms|
    requires symmetric ==> numMarkers <= |nmv|
    requires j <= k < numMarkers && k != controlId && ms[k].isActive
    requires CalculateMI(ms, row, k, threshold, noise2, pairwise, correct) != 0.0
    ensures var r := RowEdges(nmv, ms, row, j, numMarkers, controlId, symmetric, threshold, noise2, pairwise, correct);
      k in r[row] && r[row][k].mutinfo == CalculateMI(ms, row, k, threshold, noise2, pairwise, correct)
    decreases numMarkers - j
  {
    if j == k {
      var edge := CalculateMI(ms, row, j, threshold, noise2, pairwise, correct);
      var n1 := Add(nmv, row, j, edge, symmetric);
      AddStores(nmv, row, j, edge, symmetric);
      RowEdgesKeeps(n1, ms, row, j + 1, numMarkers, controlId, symmetric, threshold, noise2, pairwise, correct, k);
    } else if j != controlId && ms[j].isActive {
      var edge := CalculateMI(ms, row, j, threshold, noise2, pairwise, correct);
      if edge != 0.0 {
        var n1 := Add(nmv, row, j, edge, symmetric);
        AddStores(nmv, row, j, edge, symmetric);
        RowEdgesComplete(n1, ms, row, j + 1, numMarkers, controlId, symmetric, threshold, noise2, pairwise, correct, k);
      } else {
        RowEdgesComplete(nmv, ms, row, j + 1, numMarkers, controlId, symmetric, threshold, noise2, pairwise, correct, k);
      }
    } else {
      RowEdgesComplete(nmv, ms, row, j + 1, numMarkers, controlId, symmetric, threshold, noise2, pairwise, correct, k);
    }
  }

  /** Microarray_Set::computeOneRow(…, matrix, threshold, row, numMarkers,
      controlId, …, half, symmetric, noise2, …): the columns from row + 1 (half) or
      0 up to numMarkers, skipping the control and inactive markers, each non-zero
      calculateMI value added to the matrix. */
  method ComputeOneRow(data: MicroarraySet, matrix: Matrix, threshold: real, row: int, numMarkers: int,
                       controlId: int, half: bool, symmetric: bool, noise2: real,
                       pairwise: (int, int) -> real, correct: (int, int, real) -> real)
    requires 0 <= row < |matrix.nmv| && row < |data.markerset| && numMarkers <= |data.markerset|
    requires symmetric ==> numMarkers <= |matrix.nmv|
    modifies matrix
    ensures matrix.nmv == RowEdges(old(matrix.nmv), data.markerset, row, if half then row + 1 else 0, numMarkers,
                                   controlId, symmetric, threshold, noise2, pairwise, correct)
    ensures matrix.Flags() == old(matrix.Flags())
  {
    var j := if half then row + 1 else 0;
    while j < numMarkers
      invariant 0 <= j && |matrix.nmv| == |old(matrix.nmv)|
      invariant matrix.Flags() == old(matrix.Flags())
      invariant RowEdges(matrix.nmv, data.markerset, row, j, numMarkers, controlId, symmetric, threshold, noise2,
                         pairwise, correct) ==
        RowEdges(old(matrix.nmv), data.markerset, row, if half then row + 1 else 0, numMarkers, controlId,
                 symmetric, threshold, noise2, pairwise, correct)
      decreases numMarkers - j
    {
      if j != controlId && data.markerset[j].isActive {
        var edge := CalculateMI(data.markerset, row, j, threshold, noise2, pairwise, correct);
        if edge != 0.0 {
          matrix.AddNode(row, j, edge, symmetric);
        }
      }
      j := j + 1;
    }
  }

  // ---------------------------------------------------------------------------
  // The matrix object

  class Matrix {
    var nmv: Rows
    var writeTriangular: bool
    var writeReduced: bool
    var writeEmptyGenes: bool

    /** The three output flags. */
    ghost function Flags(): (bool, bool, bool)
      reads this`writeTriangular, this`writeReduced, this`writeEmptyGenes
    {
      (writeTriangular, writeReduced, writeEmptyGenes)
    }

    constructor()
      ensures nmv == [] && !writeTriangular && !writeReduced && !writeEmptyGenes
    {
      nmv := [];
      writeTriangular := false;
      writeReduced := false;
      writeEmptyGenes := false;
    }

    method SaveNode(i: int, j: int, mi: real)
      requires 0 <= i < |nmv|
      modifies this
      ensures nmv == Save(old(nmv), i, j, mi)
      ensures Flags() == old(Flags())
    {
      var nmap := nmv[i];
      if j !in nmap {
        nmap := nmap[j := NewNode(mi)];
      } else {
        nmap := nmap[j := nmap[j].(mutinfo := mi)];
      }
      nmv := nmv[i := nmap];
    }

    method AddNode(i: int, j: int, v: real, symmetric: bool)
      requires 0 <= i < |nmv| && (symmetric ==> 0 <= j < |nmv|)
      modifies this
      ensures nmv == Add(old(nmv), i, j, v, symmetric)
      ensures Flags() == old(Flags())
    {
      SaveNode(i, j, v);
      if symmetric {
        SaveNode(j, i, v);
      }
    }

    method CreateEntries(numEntries: int)
      modifies this
      ensures nmv == old(nmv) + seq(Max(numEntries, 0), _ => map[])
      ensures Flags() == old(Flags())
    {
      for i := 0 to Max(numEntries, 0)
        invariant nmv == old(nmv) + seq(i, _ => map[])
        invariant Flags() == old(Flags())
      {
        nmv := nmv + [map[]];
      }
    }

    /** push_back of empty rows until row `n` - 1 exists. */
    method GrowTo(n: int)
      modifies this
      ensures nmv == GrowRows(old(nmv), n)
      ensures Flags() == old(Flags())
    {
      while |nmv| < n
        invariant |old(nmv)| <= |nmv| <= Max(|old(nmv)|, n)
        invariant nmv == old(nmv) + seq(|nmv| - |old(nmv)|, _ => map[])
        invariant Flags() == old(Flags())
        decreases n - |nmv|
      {
        nmv := nmv + [map[]];
      }
    }

    /** The inner loop of reduceOneNode for the pair at position i. */
    method FindIntermediate(v: seq<ValuePair>, i: int, minMI: real, row: int, tf: Transfac)
      returns (r: Option<int>)
      requires 0 <= i < |v|
      ensures r == Scan(nmv, row, v, i, 0, minMI, tf)
    {
      var j := 0;
      while j < i
        invariant 0 <= j <= i
        invariant Scan(nmv, row, v, i, j, minMI, tf) == Scan(nmv, row, v, i, 0, minMI, tf)
      {
        var valueAC := v[j].value;
        if valueAC <= minMI {
          return None;
        }
        var valueBC := NodeMI(nmv, v[i].id, v[j].id);
        if valueBC > minMI && (tf == {} || !Protected(tf, row, v[i].id, v[j].id)) {
          return Some(j);
        }
        j := j + 1;
      }
      return None;
    }

    /** reduceOneNode(row, epsilon, transfac), with `order` the neighbours as
        std::sort leaves them. */
    method ReduceOneNode(row: int, eps: real, tf: Transfac, order: seq<int>)
      requires 0 <= row < |nmv| && eps != 1.0
      requires DecreasingOrder(order, nmv[row])
      modifies this
      ensures nmv == old(nmv)[row := ReducedRow(old(nmv), row, order, eps, tf)]
      ensures Flags() == old(Flags())
    {
      ghost var n0 := nmv;
      var miVector := Pairs(nmv[row], order);
      ReduceStart(n0, row, order, eps, tf);
      for i := 0 to |miVector|
        invariant ReduceInv(n0, nmv, row, order, eps, tf, i)
        invariant Flags() == old(Flags())
      {
        var geneId1 := miVector[i].id;
        var minMI := miVector[i].value / (1.0 - eps);
        var found := FindIntermediate(miVector, i, minMI, row, tf);
        ReduceStepLemma(n0, nmv, row, order, eps, tf, i, miVector, minMI, found);
        MarkIntermediate(row, geneId1, miVector, found);
      }
    }

    /** The end of reduceOneNode's inner loop: when an intermediate was found
        and the neighbour is still in the row, it is recorded on that edge. */
    method MarkIntermediate(row: int, geneId1: int, v: seq<ValuePair>, found: Option<int>)
      requires 0 <= row < |nmv| && (found.Some? ==> 0 <= found.value < |v|)
      modifies this
      ensures nmv == old(nmv)[row := Marked(old(nmv)[row], geneId1, v, found)]
      ensures Flags() == old(Flags())
    {
      var nmap := nmv[row];
      if found.Some? && geneId1 in nmap {
        nmap := nmap[geneId1 := nmap[geneId1].(intermediate := v[found.value].id)];
        nmv := nmv[row := nmap];
      }
    }

    /** reduce(epsilon, ids, transfac): every row, or each row in `ids`, pruned by
        reduceOneNode; orders(r) stands for the sorted neighbours of row r. */
    method Reduce(eps: real, ids: seq<int>, tf: Transfac, orders: int -> seq<int>)
      requires eps != 1.0
      requires forall r :: 0 <= r < |nmv| ==> DecreasingOrder(orders(r), nmv[r])
      requires forall p :: 0 <= p < |ids| ==> 0 <= ids[p] < |nmv|
      modifies this
      ensures |nmv| == |old(nmv)|
      ensures forall r :: 0 <= r < |nmv| ==>
        nmv[r] == if |ids| == 0 || r in ids then ReducedRow(old(nmv), r, orders(r), eps, tf) else old(nmv)[r]
      ensures Flags() == old(Flags())
    {
      ghost var n0 := nmv;
      ghost var done: set<int> := {};
      if |ids| == 0 {
        for r := 0 to |nmv|
          invariant RowsReduced(n0, nmv, done, eps, tf, orders)
          invariant forall x :: x in done <==> 0 <= x < r
          invariant Flags() == old(Flags())
        {
          RowsReducedStep(n0, nmv, done, r, eps, tf, orders);
          ReduceOneNode(r, eps, tf, orders(r));
          done := done + {r};
        }
      } else {
        for p := 0 to |ids|
          invariant RowsReduced(n0, nmv, done, eps, tf, orders)
          invariant forall x :: x in done <==> x in ids[..p]
          invariant Flags() == old(Flags())
        {
          RowsReducedStep(n0, nmv, done, ids[p], eps, tf, orders);
          ReduceOneNode(ids[p], eps, tf, orders(ids[p]));
          assert ids[..p + 1] == ids[..p] + [ids[p]];
          done := done + {ids[p]};
        }
        assert ids[..|ids|] == ids;
      }
    }

    /** One line of Matrix::read: the hub's row and active flag, then its pairs. */
    method ReadLine(line: string, data: MicroarraySet, threshold: real, atof: string -> real)
      returns (outcome: Outcome<string>)
      modifies this, data
      ensures var l := LineLoad(old(nmv), old(data.markerset), line, threshold, atof);
        nmv == l.nmv && data.markerset == l.markers && outcome == l.outcome
      ensures Flags() == old(Flags()) && data.uarrays == old(data.uarrays) && data.header == old(data.header)
    {
      ghost var spec := LineLoad(nmv, data.markerset, line, threshold, atof);
      var f := Split(line, "\t");
      var geneId1 := data.GetProbeId("_" + f[0]);
      if geneId1 == -1 {
        return Fail(NotFound("_" + f[0]));
      }
      PrefixedLabel(data.markerset, f[0]);
      data.markerset := data.markerset[geneId1 := data.markerset[geneId1].(isActive := true)];
      GrowTo(geneId1 + 1);
      ghost var ms1 := data.markerset;
      assert spec == PairsLoad(nmv, ms1, geneId1, f, 1, threshold, atof);
      var k := 1;
      while k + 1 < |f|
        invariant 1 <= k && 0 <= geneId1 < |nmv|
        invariant data.markerset == ms1 && data.uarrays == old(data.uarrays) && data.header == old(data.header)
        invariant Flags() == old(Flags())
        invariant PairsLoad(nmv, ms1, geneId1, f, k, threshold, atof) == spec
        decreases |f| - k
      {
        PairsLoadStep(nmv, ms1, geneId1, f, k, threshold, atof);
        var error := ReadPair(data, geneId1, f[k], f[k + 1], threshold, atof);
        if error.Some? {
          return Fail(error.value);
        }
        k := k + 2;
      }
      return Pass;
    }

    /** One (target, value) pair of Matrix::read. */
    method ReadPair(data: MicroarraySet, geneId1: int, target: string, value: string, threshold: real,
                    atof: string -> real) returns (error: Option<string>)
      requires 0 <= geneId1 < |nmv|
      modifies this
      ensures var st := PairStep(old(nmv), data.markerset, geneId1, target, value, threshold, atof);
        nmv == st.nmv && error == st.error
      ensures Flags() == old(Flags())
    {
      var mi := atof(value);
      if mi < threshold {
        return None;
      }
      var geneId2 := data.GetProbeId("_" + target);
      if geneId2 == -1 {
        return Some(NotFound("_" + target));
      }
      PrefixedLabel(data.markerset, target);
      GrowTo(geneId2 + 1);
      SaveNode(geneId1, geneId2, mi);
      return None;
    }

    /** Matrix::read(in, data, p): the lines after the '>' header lines, one by one,
        until one throws. The header loop stops at the end of the text, where the
        source's loops forever (ReadAsWritten). */
    method Read(text: string, data: MicroarraySet, threshold: real, atof: string -> real)
      returns (outcome: Outcome<string>)
      modifies this, data
      ensures var l := ReadSpec(old(nmv), old(data.markerset), text, threshold, atof);
        nmv == l.nmv && data.markerset == l.markers && outcome == l.outcome
      ensures Flags() == old(Flags()) && data.uarrays == old(data.uarrays) && data.header == old(data.header)
    {
      var pieces := Split(text, NL);
      var h := SkipHeader(pieces);
      var lines := if h + 1 < |pieces| then pieces[h..|pieces| - 1] else [];
      assert lines == BodyLines(pieces);
      assert lines == AdjLines(text);
      for p := 0 to |lines|
        invariant LinesLoad(nmv, data.markerset, lines[p..], threshold, atof) ==
          ReadSpec(old(nmv), old(data.markerset), text, threshold, atof)
        invariant Flags() == old(Flags()) && data.uarrays == old(data.uarrays) && data.header == old(data.header)
      {
        LinesLoadStep(nmv, data.markerset, lines, p, threshold, atof);
        outcome := ReadLine(lines[p], data, threshold, atof);
        if outcome.Fail? {
          return;
        }
      }
      return Pass;
    }

    /** writeGeneLine(out, data, geneId): the text written for one row. */
    method WriteGeneLine(data: MicroarraySet, geneId: int, fmt: real -> string) returns (text: string)
      requires 0 <= geneId < |nmv| && geneId < |data.markerset|
      requires Prefixed(data.markerset) && Within(nmv, data.markerset)
      ensures text == GeneLineText(nmv, data.markerset, geneId, writeTriangular, writeReduced, writeEmptyGenes, fmt)
    {
      var nmap, ms := nmv[geneId], data.markerset;
      var marker := ms[geneId];
      if |nmap| == 0 && (!writeEmptyGenes || (!marker.isActive && !marker.isControl)) {
        return "";
      }
      var tri, red := writeTriangular, writeReduced;
      var keys := AscendingKeys(nmap.Keys);
      assert forall x :: x in keys ==> x in nmap && 0 <= x < |ms|;
      var head := Accession(marker);
      text := head;
      for p := 0 to |keys|
        invariant text == head + ShownCells(nmap, ms, geneId, keys, p, tri, red, fmt)
      {
        var id := keys[p];
        assert id in keys;
        ShownCellsStep(nmap, ms, geneId, keys, p, tri, red, fmt);
        if !Shown(nmap, geneId, id, tri, red) {
          continue;
        }
        var cell := Cell(ms, id, nmap[id], fmt);
        Associative(head, ShownCells(nmap, ms, geneId, keys, p, tri, red, fmt), cell);
        text := text + cell;
      }
      ShownCellsAll(nmap, ms, geneId, keys, tri, red, fmt);
      assert !Skipped(nmap, marker, writeEmptyGenes);
      text := text + "\n";
    }

    /** write(out, data, ids): every row in order when `ids` is empty, else the rows
        in `ids`. */
    method Write(data: MicroarraySet, ids: seq<int>, fmt: real -> string) returns (text: string)
      requires Prefixed(data.markerset) && Within(nmv, data.markerset)
      requires forall p :: 0 <= p < |ids| ==> 0 <= ids[p] < |nmv|
      ensures text == WriteText(nmv, data.markerset, if |ids| == 0 then AllRows(|nmv|) else ids,
                                writeTriangular, writeReduced, writeEmptyGenes, fmt)
    {
      var rows := if |ids| == 0 then AllRows(|nmv|) else ids;
      assert forall q :: 0 <= q < |rows| ==> 0 <= rows[q] < |nmv|;
      assert |nmv| <= |data.markerset|;
      text := "";
      for p := 0 to |rows|
        invariant text == WriteText(nmv, data.markerset, rows[..p], writeTriangular, writeReduced, writeEmptyGenes, fmt)
      {
        assert 0 <= rows[p] < |nmv|;
        var line := WriteGeneLine(data, rows[p], fmt);
        WriteTextStep(nmv, data.markerset, rows, p, writeTriangular, writeReduced, writeEmptyGenes, fmt);
        text := text + line;
      }
      assert rows[..|rows|] == rows;
    }
  }
}
