/** The draw.io export: a roughly square grid of hosts per subnet, subnets side by side under two
    legends, and the ports table below. */
module Drawio {
  import opened Text

  // ---- the grid ----

  /** The least number of columns, at least one, whose square has room for `n`. */
  function Columns(n: nat): (c: nat)
    ensures c >= 1 && n <= c * c && (c > 1 ==> (c - 1) * (c - 1) < n)
  {
    ColumnsFrom(n, 1)
  }

  function ColumnsFrom(n: nat, c: nat): (r: nat)
    requires c >= 1 && (c > 1 ==> (c - 1) * (c - 1) < n)
    ensures r >= 1 && n <= r * r && (r > 1 ==> (r - 1) * (r - 1) < n)
    decreases if n > c * c then n - c * c else 0
  {
    if n <= c * c then c else ColumnsFrom(n, c + 1)
  }

  function Ceil(x: real): int {
    -((-x).Floor)
  }

  /** `root` is the square root of `n`, taken over the reals. */
  function GridColumns(n: nat, root: real): int
    requires root >= 0.0 && root * root == n as real
  {
    if Ceil(root) >= 1 then Ceil(root) else 1
  }

  /** Main: the rounded-up square root is the least number of columns whose square holds `n`. */
  lemma GridColumnsIsLeast(n: nat, root: real)
    requires root >= 0.0 && root * root == n as real
    ensures GridColumns(n, root) == Columns(n)
  {
    var a := GridColumns(n, root);
    GridColumnsFit(n, root);
    GridColumnsTight(n, root);
    LeastIsUnique(n, a, Columns(n));
  }

  lemma CeilBounds(x: real)
    ensures (Ceil(x) - 1) as real < x <= Ceil(x) as real
  {
  }

  lemma SquareAsReal(c: int)
    ensures (c as real) * (c as real) == (c * c) as real
  {
  }

  lemma GridColumnsFit(n: nat, root: real)
    requires root >= 0.0 && root * root == n as real
    ensures GridColumns(n, root) >= 1 && n <= GridColumns(n, root) * GridColumns(n, root)
  {
    CeilBounds(root);
    var c := Ceil(root);
    hide Ceil;
    RealSquares(root, c as real);
    SquareAsReal(c);
  }

  lemma GridColumnsTight(n: nat, root: real)
    requires root >= 0.0 && root * root == n as real
    ensures var a := GridColumns(n, root); a > 1 ==> (a - 1) * (a - 1) < n
  {
    CeilBounds(root);
    var c := Ceil(root);
    hide Ceil;
    if c > 1 {
      StrictSquares((c - 1) as real, root);
      SquareAsReal(c - 1);
    }
  }

  lemma LeastIsUnique(n: nat, a: nat, b: nat)
    requires a >= 1 && n <= a * a && (a > 1 ==> (a - 1) * (a - 1) < n)
    requires b >= 1 && n <= b * b && (b > 1 ==> (b - 1) * (b - 1) < n)
    ensures a == b
  {
    if a < b { Squares(a, b - 1); }
    if b < a { Squares(b, a - 1); }
  }

  lemma Squares(a: nat, b: nat)
    requires a <= b
    ensures a * a <= b * b
  {
    assert b * b - a * a == (b - a) * (b + a);
  }

  lemma RealSquares(x: real, y: real)
    requires 0.0 <= x <= y
    ensures x * x <= y * y
  {
    assert x * x <= x * y;
    assert x * y <= y * y;
  }

  lemma StrictSquares(x: real, y: real)
    requires 0.0 <= x < y
    ensures x * x < y * y
  {
    Positive(y - x, y + x);
    assert (y - x) * (y + x) == y * y - x * x;
  }

  lemma Positive(a: real, b: real)
    requires a > 0.0 && b > 0.0
    ensures a * b > 0.0
  {
  }

  function CeilDiv(n: nat, d: nat): nat
    requires d > 0
  {
    (n + d - 1) / d
  }

  function Rows(n: nat): nat {
    var r := CeilDiv(n, Columns(n));
    if r >= 1 then r else 1
  }

  /** Main: a non-empty grid has as many rows as columns, or one fewer, and room for every item. */
  lemma GridIsSquarish(n: nat)
    ensures Rows(n) == Columns(n) || Rows(n) == Columns(n) - 1
    ensures n <= Rows(n) * Columns(n) && (n > 0 ==> (Rows(n) - 1) * Columns(n) < n)
  {
    DivBounds(n, Columns(n));
    var c, q := Columns(n), CeilDiv(n, Columns(n));
    hide Columns, CeilDiv;
    if n > 0 { Squarish(n, c, q); }
  }

  lemma Squarish(n: nat, c: nat, q: nat)
    requires n > 0 && c >= 1 && n <= c * c && (c > 1 ==> (c - 1) * (c - 1) < n)
    requires n <= q * c && (q - 1) * c < n
    ensures q == c || q == c - 1
    ensures q >= 1
  {
    if q > c { Product(c, q - 1, c); }
    if q < c - 1 {
      Product(q, c - 2, c);
      SquareLess(c);
    }
    if q == 0 { Product(q, 0, c); }
  }

  lemma SquareLess(c: nat)
    ensures (c - 2) * c == (c - 1) * (c - 1) - 1
  {
  }

  lemma DivBounds(n: nat, c: nat)
    requires c > 0
    ensures n <= CeilDiv(n, c) * c && (n > 0 ==> CeilDiv(n, c) >= 1 && (CeilDiv(n, c) - 1) * c < n)
    ensures n == 0 ==> CeilDiv(n, c) == 0
  {
    var q := (n + c - 1) / c;
    assert n + c - 1 == q * c + (n + c - 1) % c;
    assert (q - 1) * c == q * c - c;
    if n > 0 && q < 1 { Product(q, 0, c); assert false; }
    if n == 0 && q > 0 { Product(1, q, c); assert false; }
    if q < 0 { Product(q, -1, c); assert false; }
  }

  lemma Product(a: int, b: int, c: nat)
    requires a <= b
    ensures a * c <= b * c
  {
  }

  function Flatten<T>(rows: seq<seq<T>>): seq<T> {
    if rows == [] then [] else Flatten(rows[..|rows| - 1]) + rows[|rows| - 1]
  }

  /** Row-major chunks: flattening gives the items back, and every row but the last is full. */
  method GridRows<T>(items: seq<T>, cols: nat) returns (rows: seq<seq<T>>)
    requires cols > 0
    ensures Flatten(rows) == items
    ensures forall r | 0 <= r < |rows| :: 0 < |rows[r]| <= cols && (r < |rows| - 1 ==> |rows[r]| == cols)
  {
    rows := [];
    var i := 0;
    while i < |items|
      invariant i == |rows| * cols || (i >= |items| && rows != [])
      invariant Flatten(rows) == items[..if i <= |items| then i else |items|]
      invariant forall r | 0 <= r < |rows| ::
        0 < |rows[r]| <= cols && (r < |rows| - 1 || i <= |items| ==> |rows[r]| == cols)
      decreases |items| - i
    {
      var end := if i + cols <= |items| then i + cols else |items|;
      assert (rows + [items[i..end]])[..|rows|] == rows;
      assert items[..i] + items[i..end] == items[..end];
      rows := rows + [items[i..end]];
      i := i + cols;
    }
    assert items[..|items|] == items;
  }

  // ---- the picture ----

  const ICON_W := 60
  const ICON_H := 44
  const LABEL_H := 30
  const CELL_W := 150
  const CELL_GAP_X := 20
  const CELL_GAP_Y := 15
  const CELL_H := ICON_H + LABEL_H
  const PAD := 20
  const TITLE_H := 30
  const SUBNET_GAP_X := 40
  const LEGEND_W := 380
  const SWATCH_H := 40
  const SWATCH_GAP := 10
  const LEGEND_H := TITLE_H + PAD + 3 * SWATCH_H + 2 * SWATCH_GAP + PAD
  const KINDS_X := PAD + LEGEND_W + 40
  const KIND_W := 110
  const KINDS_W := 3 * KIND_W + PAD * 2
  const KINDS_H := TITLE_H + PAD + ICON_H + LABEL_H + PAD

  datatype Rect = Rect(x: int, y: int, w: int, h: int)

  /** Every node of the picture; `j` counts subnets and `i` the hosts of one. */
  datatype Part =
    | Legend
    | Swatch(i: nat)
    | Kinds
    | Kind(i: nat)
    | Box(j: nat)
    | NoHosts(j: nat)
    | Host(j: nat, i: nat)
    | Table

  datatype Node = Node(id: string, part: Part, rect: Rect)

  function Max(a: int, b: int): int {
    if a >= b then a else b
  }

  function BoxW(n: nat): int {
    Columns(n) * CELL_W + (Columns(n) - 1) * CELL_GAP_X + PAD * 2
  }

  function BoxH(n: nat): int {
    TITLE_H + PAD + Rows(n) * CELL_H + (Rows(n) - 1) * CELL_GAP_Y + PAD
  }

  /** Where the next box goes after boxes for these host counts. */
  function NextX(counts: seq<nat>): int {
    if counts == [] then PAD else NextX(counts[..|counts| - 1]) + BoxW(counts[|counts| - 1]) + SUBNET_GAP_X
  }

  function TallestBox(counts: seq<nat>): int {
    if counts == [] then 0 else Max(TallestBox(counts[..|counts| - 1]), BoxH(counts[|counts| - 1]))
  }

  const SUBNETS_Y := PAD + Max(LEGEND_H, KINDS_H) + 40

  predicate InPicture(p: Part, counts: seq<nat>) {
    match p
    case Swatch(i) => i < 3
    case Kind(i) => i < 3
    case Box(j) => j < |counts|
    case NoHosts(j) => j < |counts| && counts[j] == 0
    case Host(j, i) => j < |counts| && i < counts[j]
    case _ => true
  }

  /** The grid position of host `i` of `n`. */
  function Col(n: nat, i: nat): nat {
    i % Columns(n)
  }

  function Row(n: nat, i: nat): nat {
    i / Columns(n)
  }

  function Place(p: Part, counts: seq<nat>, hosts: nat): Rect
    requires InPicture(p, counts)
  {
    match p
    case Legend => Rect(PAD, PAD, LEGEND_W, LEGEND_H)
    case Swatch(i) => Rect(PAD * 2, PAD + TITLE_H + PAD + i * (SWATCH_H + SWATCH_GAP), LEGEND_W - PAD * 2, SWATCH_H)
    case Kinds => Rect(KINDS_X, PAD, KINDS_W, KINDS_H)
    case Kind(i) => Rect(KINDS_X + PAD + i * KIND_W + (KIND_W - ICON_W) / 2, PAD + TITLE_H + PAD, ICON_W, ICON_H)
    case Box(j) => Rect(NextX(counts[..j]), SUBNETS_Y, BoxW(counts[j]), BoxH(counts[j]))
    case NoHosts(j) => Rect(NextX(counts[..j]) + PAD, SUBNETS_Y + TITLE_H + PAD, CELL_W, ICON_H)
    case Host(j, i) =>
      Rect(NextX(counts[..j]) + PAD + Col(counts[j], i) * (CELL_W + CELL_GAP_X) + (CELL_W - ICON_W) / 2,
           SUBNETS_Y + TITLE_H + PAD + Row(counts[j], i) * (CELL_H + CELL_GAP_Y), ICON_W, ICON_H)
    case Table =>
      Rect(PAD, SUBNETS_Y + TallestBox(counts) + 40, Max(NextX(counts) - SUBNET_GAP_X - PAD, 700),
           30 + (hosts + 1) * 26)
  }

  function HostParts(j: nat, n: nat): seq<Part> {
    if n == 0 then [NoHosts(j)] else seq(n, i requires 0 <= i < n => Host(j, i))
  }

  function SubnetParts(counts: seq<nat>): seq<Part> {
    if counts == [] then []
    else SubnetParts(counts[..|counts| - 1]) + [Box(|counts| - 1)] + HostParts(|counts| - 1, counts[|counts| - 1])
  }

  const LEGENDS: seq<Part> := [Legend, Swatch(0), Swatch(1), Swatch(2), Kinds, Kind(0), Kind(1), Kind(2)]

  function Parts(counts: seq<nat>): seq<Part> {
    LEGENDS + SubnetParts(counts) + [Table]
  }

  function CountIn(hosts: seq<nat>, subnet: nat): nat {
    if hosts == [] then 0 else CountIn(hosts[..|hosts| - 1], subnet) + if hosts[|hosts| - 1] == subnet then 1 else 0
  }

  function Counts(subnets: seq<nat>, hosts: seq<nat>): seq<nat> {
    seq(|subnets|, j requires 0 <= j < |subnets| => CountIn(hosts, subnets[j]))
  }

  function NodeId(k: nat): string {
    "n" + Decimal(k + 2)
  }

  /** `nodes` draws `parts` in order, each where `Place` puts it, under consecutive ids. */
  ghost predicate Draws(nodes: seq<Node>, parts: seq<Part>, counts: seq<nat>, hosts: nat) {
    && |nodes| == |parts|
    && forall k | 0 <= k < |nodes| ::
      InPicture(parts[k], counts) && nodes[k] == Node(NodeId(k), parts[k], Place(parts[k], counts, hosts))
  }

  method AddNode(cells: seq<Node>, idCounter: nat, part: Part, x: int, y: int, w: int, h: int)
    returns (cells': seq<Node>, idCounter': nat)
    ensures cells' == cells + [Node("n" + Decimal(idCounter), part, Rect(x, y, w, h))] && idCounter' == idCounter + 1
  {
    cells' := cells + [Node("n" + Decimal(idCounter), part, Rect(x, y, w, h))];
    idCounter' := idCounter + 1;
  }

  method DrawLegends(counts: seq<nat>, hosts: nat) returns (cells: seq<Node>, idCounter: nat)
    ensures Draws(cells, LEGENDS, counts, hosts) && idCounter == 10
  {
    cells, idCounter := AddNode([], 2, Legend, PAD, PAD, LEGEND_W, LEGEND_H);
    for i := 0 to 3
      invariant Draws(cells, LEGENDS[..1 + i], counts, hosts) && idCounter == 3 + i
    {
      cells, idCounter := AddNode(cells, idCounter, Swatch(i),
        PAD * 2, PAD + TITLE_H + PAD + i * (SWATCH_H + SWATCH_GAP), LEGEND_W - PAD * 2, SWATCH_H);
    }
    cells, idCounter := AddNode(cells, idCounter, Kinds, KINDS_X, PAD, KINDS_W, KINDS_H);
    for i := 0 to 3
      invariant Draws(cells, LEGENDS[..5 + i], counts, hosts) && idCounter == 7 + i
    {
      cells, idCounter := AddNode(cells, idCounter, Kind(i),
        KINDS_X + PAD + i * KIND_W + (KIND_W - ICON_W) / 2, PAD + TITLE_H + PAD, ICON_W, ICON_H);
    }
    assert LEGENDS[..8] == LEGENDS;
  }

  /** One more node in its place. */
  lemma DrawsOneMore(cells: seq<Node>, parts: seq<Part>, node: Node, counts: seq<nat>, hosts: nat)
    requires Draws(cells, parts, counts, hosts) && InPicture(node.part, counts)
    requires node.id == NodeId(|cells|) && node.rect == Place(node.part, counts, hosts)
    ensures Draws(cells + [node], parts + [node.part], counts, hosts)
  {
    hide InPicture, Place, NodeId;
  }

  /** The hosts of subnet `j`, or the note that it has none, in the box whose left edge is `x`. */
  method DrawHosts(cells0: seq<Node>, idCounter0: nat, x: int, j: nat, counts: seq<nat>, hosts: nat,
                   ghost parts: seq<Part>)
    returns (cells: seq<Node>, idCounter: nat)
    requires j < |counts| && x == NextX(counts[..j])
    requires Draws(cells0, parts, counts, hosts) && idCounter0 == |cells0| + 2
    ensures Draws(cells, parts + HostParts(j, counts[j]), counts, hosts) && idCounter == |cells| + 2
  {
    hide Draws, NextX, Columns;
    cells, idCounter := cells0, idCounter0;
    var n := counts[j];
    var cols := Columns(n);
    if n == 0 {
      DrawsOneMore(cells, parts, Node(NodeId(|cells|), NoHosts(j), Place(NoHosts(j), counts, hosts)), counts, hosts);
      cells, idCounter := AddNode(cells, idCounter, NoHosts(j), x + PAD, SUBNETS_Y + TITLE_H + PAD, CELL_W, ICON_H);
    } else {
      assert parts + HostParts(j, n)[..0] == parts;
      for i := 0 to n
        invariant Draws(cells, parts + HostParts(j, n)[..i], counts, hosts) && idCounter == |cells| + 2
      {
        assert parts + HostParts(j, n)[..i + 1] == parts + HostParts(j, n)[..i] + [Host(j, i)];
        var cellX := x + PAD + (i % cols) * (CELL_W + CELL_GAP_X);
        var cellY := SUBNETS_Y + TITLE_H + PAD + (i / cols) * (CELL_H + CELL_GAP_Y);
        var node := Node(NodeId(|cells|), Host(j, i), Place(Host(j, i), counts, hosts));
        DrawsOneMore(cells, parts + HostParts(j, n)[..i], node, counts, hosts);
        cells, idCounter := AddNode(cells, idCounter, Host(j, i), cellX + (CELL_W - ICON_W) / 2, cellY, ICON_W, ICON_H);
      }
      assert HostParts(j, n)[..n] == HostParts(j, n);
    }
  }

  /** Main: the whole picture, node by node. `hosts` lists the subnet of every host. */
  method BuildDrawioDiagram(subnets: seq<nat>, hosts: seq<nat>) returns (cells: seq<Node>)
    ensures Draws(cells, Parts(Counts(subnets, hosts)), Counts(subnets, hosts), |hosts|)
  {
    hide Draws, Columns, Rows;
    var counts := Counts(subnets, hosts);
    var idCounter;
    cells, idCounter := DrawLegends(counts, |hosts|);
    assert LEGENDS + SubnetParts(counts[..0]) == LEGENDS;
    DrawnLength(cells, LEGENDS, counts, |hosts|);
    var x, maxSubnetH := PAD, 0;
    for j := 0 to |subnets|
      invariant x == NextX(counts[..j]) && maxSubnetH == TallestBox(counts[..j])
      invariant Draws(cells, LEGENDS + SubnetParts(counts[..j]), counts, |hosts|) && idCounter == |cells| + 2
    {
      ghost var drawn := LEGENDS + SubnetParts(counts[..j]);
      assert counts[..j + 1][..j] == counts[..j];
      var cols, rows := Columns(counts[j]), Rows(counts[j]);
      var subnetW := cols * CELL_W + (cols - 1) * CELL_GAP_X + PAD * 2;
      var subnetH := TITLE_H + PAD + rows * CELL_H + (rows - 1) * CELL_GAP_Y + PAD;
      maxSubnetH := Max(maxSubnetH, subnetH);
      DrawsOneMore(cells, drawn, Node(NodeId(|cells|), Box(j), Place(Box(j), counts, |hosts|)), counts, |hosts|);
      cells, idCounter := AddNode(cells, idCounter, Box(j), x, SUBNETS_Y, subnetW, subnetH);
      cells, idCounter := DrawHosts(cells, idCounter, x, j, counts, |hosts|, drawn + [Box(j)]);
      SubnetPartsNext(counts, j);
      x := x + subnetW + SUBNET_GAP_X;
    }
    assert counts[..|counts|] == counts;
    var table := Node(NodeId(|cells|), Table, Place(Table, counts, |hosts|));
    DrawsOneMore(cells, LEGENDS + SubnetParts(counts), table, counts, |hosts|);
    cells, idCounter := AddNode(cells, idCounter, Table,
      PAD, SUBNETS_Y + maxSubnetH + 40, Max(x - SUBNET_GAP_X - PAD, 700), 30 + (|hosts| + 1) * 26);
  }

  lemma DrawnLength(cells: seq<Node>, parts: seq<Part>, counts: seq<nat>, hosts: nat)
    requires Draws(cells, parts, counts, hosts)
    ensures |cells| == |parts|
  {
  }

  lemma SubnetPartsNext(counts: seq<nat>, j: nat)
    requires j < |counts|
    ensures LEGENDS + SubnetParts(counts[..j]) + [Box(j)] + HostParts(j, counts[j]) ==
            LEGENDS + SubnetParts(counts[..j + 1])
  {
    assert counts[..j + 1][..j] == counts[..j];
  }

  // ---- nothing overlaps ----

  /** The area a node takes up, its label included. */
  function Footprint(p: Part, counts: seq<nat>, hosts: nat): Rect
    requires InPicture(p, counts)
  {
    var r := Place(p, counts, hosts);
    match p
    case Kind(i) => Rect(KINDS_X + PAD + i * KIND_W, r.y, KIND_W, CELL_H)
    case Host(_, _) => Rect(r.x - (CELL_W - ICON_W) / 2, r.y, CELL_W, CELL_H)
    case _ => r
  }

  predicate Inside(a: Rect, b: Rect) {
    b.x <= a.x && a.x + a.w <= b.x + b.w && b.y <= a.y && a.y + a.h <= b.y + b.h
  }

  predicate Apart(a: Rect, b: Rect) {
    a.x + a.w <= b.x || b.x + b.w <= a.x || a.y + a.h <= b.y || b.y + b.h <= a.y
  }

  function Container(p: Part): Part {
    match p
    case Swatch(_) => Legend
    case Kind(_) => Kinds
    case NoHosts(j) => Box(j)
    case Host(j, _) => Box(j)
    case _ => p
  }

  lemma {:induction false} BoxesInOrder(counts: seq<nat>, j: nat, k: nat)
    requires j < k <= |counts|
    ensures NextX(counts[..j]) + BoxW(counts[j]) + SUBNET_GAP_X <= NextX(counts[..k])
  {
    hide Columns;
    assert counts[..k][..k - 1] == counts[..k - 1];
    BoxWide(counts[k - 1]);
    if j < k - 1 { BoxesInOrder(counts, j, k - 1); }
  }

  lemma BoxWide(n: nat)
    ensures BoxW(n) >= CELL_W + PAD * 2 && BoxH(n) >= TITLE_H + PAD + CELL_H + PAD
  {
    hide Columns;
    assert Columns(n) >= 1 && Rows(n) >= 1;
  }

  lemma {:induction false} BoxNotTaller(counts: seq<nat>, j: nat)
    requires j < |counts|
    ensures BoxH(counts[j]) <= TallestBox(counts)
  {
    var n := |counts| - 1;
    if j < n { BoxNotTaller(counts[..n], j); }
  }

  /** A host's cell lies in its grid. */
  lemma CellInGrid(n: nat, i: nat)
    requires i < n
    ensures Col(n, i) <= Columns(n) - 1 && Row(n, i) <= Rows(n) - 1
    ensures i == Row(n, i) * Columns(n) + Col(n, i)
  {
    GridIsSquarish(n);
    var c := Columns(n);
    hide Columns, Rows;
    if i / c > Rows(n) - 1 { Product(Rows(n), i / c, c); }
  }

  lemma NodeInContainer(p: Part, counts: seq<nat>, hosts: nat)
    requires InPicture(p, counts)
    ensures InPicture(Container(p), counts)
    ensures Inside(Footprint(p, counts, hosts), Footprint(Container(p), counts, hosts))
    ensures Inside(Place(p, counts, hosts), Footprint(p, counts, hosts))
  {
    hide Columns, Rows, NextX;
    match p {
      case NoHosts(j) => BoxWide(0);
      case Host(j, i) => HostInBox(j, i, counts, hosts);
      case _ =>
    }
  }

  lemma HostInBox(j: nat, i: nat, counts: seq<nat>, hosts: nat)
    requires j < |counts| && i < counts[j]
    ensures Inside(Footprint(Host(j, i), counts, hosts), Footprint(Box(j), counts, hosts))
    ensures Inside(Place(Host(j, i), counts, hosts), Footprint(Host(j, i), counts, hosts))
  {
    hide Columns, Rows, NextX, Col, Row;
    CellInGrid(counts[j], i);
    CellInside(NextX(counts[..j]), Col(counts[j], i), Row(counts[j], i), Columns(counts[j]), Rows(counts[j]));
  }

  lemma CellInside(x: int, col: int, row: int, cols: int, rows: int)
    requires 0 <= col <= cols - 1 && 0 <= row <= rows - 1
    ensures Inside(Rect(x + PAD + col * (CELL_W + CELL_GAP_X), SUBNETS_Y + TITLE_H + PAD + row * (CELL_H + CELL_GAP_Y),
                        CELL_W, CELL_H),
                   Rect(x, SUBNETS_Y, cols * CELL_W + (cols - 1) * CELL_GAP_X + PAD * 2,
                        TITLE_H + PAD + rows * CELL_H + (rows - 1) * CELL_GAP_Y + PAD))
  {
  }

  lemma CellsApart(counts: seq<nat>, hosts: nat, j: nat, i: nat, k: nat)
    requires j < |counts| && i < k < counts[j]
    ensures Apart(Footprint(Host(j, i), counts, hosts), Footprint(Host(j, k), counts, hosts))
  {
    hide Columns, Rows, NextX, Col, Row;
    var n := counts[j];
    CellInGrid(n, i);
    CellInGrid(n, k);
    if Row(n, i) > Row(n, k) { Product(Row(n, k) + 1, Row(n, i), Columns(n)); }
  }

  lemma ContainersApart(p: Part, q: Part, counts: seq<nat>, hosts: nat)
    requires InPicture(p, counts) && InPicture(q, counts) && p != q && Container(p) == p && Container(q) == q
    ensures Apart(Footprint(p, counts, hosts), Footprint(q, counts, hosts))
  {
    hide Columns, Rows;
    if p.Box? && q.Box? {
      if p.j < q.j { BoxesInOrder(counts, p.j, q.j); } else { BoxesInOrder(counts, q.j, p.j); }
    } else if p.Box? {
      BoxNotTaller(counts, p.j);
    } else if q.Box? {
      BoxNotTaller(counts, q.j);
    }
    hide NextX, TallestBox;
    if p.Table? || q.Table? { TallestNonNegative(counts); }
  }

  lemma TallestNonNegative(counts: seq<nat>)
    ensures TallestBox(counts) >= 0
  {
    if counts != [] { TallestNonNegative(counts[..|counts| - 1]); }
  }

  lemma ApartWithin(a: Rect, b: Rect, a': Rect, b': Rect)
    requires Apart(a, b) && Inside(a', a) && Inside(b', b)
    ensures Apart(a', b')
  {
  }

  /** Main: for any host counts, two nodes of the picture, labels included, overlap only when one is the
      container of the other, and then it lies inside it. */
  lemma NothingOverlaps(p: Part, q: Part, counts: seq<nat>, hosts: nat)
    requires InPicture(p, counts) && InPicture(q, counts) && p != q
    ensures if q == Container(p) then Inside(Footprint(p, counts, hosts), Footprint(q, counts, hosts))
            else if p == Container(q) then Inside(Footprint(q, counts, hosts), Footprint(p, counts, hosts))
            else Apart(Footprint(p, counts, hosts), Footprint(q, counts, hosts))
  {
    NodeInContainer(p, counts, hosts);
    NodeInContainer(q, counts, hosts);
    var a, b := Container(p), Container(q);
    if a != b {
      ContainersApart(a, b, counts, hosts);
      ApartWithin(Footprint(a, counts, hosts), Footprint(b, counts, hosts), Footprint(p, counts, hosts),
                  Footprint(q, counts, hosts));
    } else if p != a && q != a && p.Host? && q.Host? {
      if p.i < q.i { CellsApart(counts, hosts, p.j, p.i, q.i); } else { CellsApart(counts, hosts, p.j, q.i, p.i); }
    }
  }

  // ---- every node once, every id once ----

  lemma {:induction false} SubnetPartsListed(counts: seq<nat>, p: Part)
    ensures p in SubnetParts(counts) <==> InPicture(p, counts) && (p.Box? || p.NoHosts? || p.Host?)
  {
    if counts != [] {
      var n := |counts| - 1;
      SubnetPartsListed(counts[..n], p);
      HostPartsListed(n, counts[n], p);
    }
  }

  lemma HostPartsListed(j: nat, n: nat, p: Part)
    ensures p in HostParts(j, n) <==> (n == 0 && p == NoHosts(j)) || (p.Host? && p.j == j && p.i < n)
  {
    if n > 0 && p.Host? && p.j == j && p.i < n { assert HostParts(j, n)[p.i] == p; }
  }

  /** Main: the picture draws exactly its legends, one box per subnet, one node per host of a subnet (a
      note where there is none) and the table; and no two nodes share an id. */
  lemma EveryNodeDrawn(cells: seq<Node>, counts: seq<nat>, hosts: nat, p: Part)
    requires Draws(cells, Parts(counts), counts, hosts)
    ensures InPicture(p, counts) <==> exists k :: 0 <= k < |cells| && cells[k].part == p
    ensures forall k, l | 0 <= k < l < |cells| :: cells[k].id != cells[l].id
  {
    forall k, l | 0 <= k < l < |cells| ensures cells[k].id != cells[l].id {
      if NodeId(k) == NodeId(l) {
        assert NodeId(k)[1..] == Decimal(k + 2) && NodeId(l)[1..] == Decimal(l + 2);
        DecimalInjective(k + 2, l + 2);
      }
    }
    SubnetPartsListed(counts, p);
    var parts := Parts(counts);
    if InPicture(p, counts) {
      assert LEGENDS[0] == Legend && LEGENDS[4] == Kinds;
      if p.Swatch? { assert LEGENDS[1 + p.i] == p; }
      if p.Kind? { assert LEGENDS[5 + p.i] == p; }
      assert parts[|parts| - 1] == Table;
      assert p in LEGENDS || p in SubnetParts(counts) || p == Table;
      assert p in parts;
      var k :| 0 <= k < |parts| && parts[k] == p;
      assert cells[k].part == p;
    }
  }

  lemma {:induction false} SubnetPartsDistinct(counts: seq<nat>)
    ensures forall k, l | 0 <= k < l < |SubnetParts(counts)| :: SubnetParts(counts)[k] != SubnetParts(counts)[l]
  {
    if counts != [] {
      var n := |counts| - 1;
      var before, mine := SubnetParts(counts[..n]), [Box(n)] + HostParts(n, counts[n]);
      SubnetPartsDistinct(counts[..n]);
      forall k | 0 <= k < |before| ensures before[k] !in mine {
        SubnetPartsListed(counts[..n], before[k]);
        HostPartsListed(n, counts[n], before[k]);
      }
      assert SubnetParts(counts) == before + mine;
      forall k, l | 0 <= k < l < |before + mine| ensures (before + mine)[k] != (before + mine)[l] {
        if k < |before| <= l { assert mine[l - |before|] in mine; }
      }
    }
  }

  /** Main: no node is drawn twice. */
  lemma NoNodeTwice(cells: seq<Node>, counts: seq<nat>, hosts: nat, k: nat, l: nat)
    requires Draws(cells, Parts(counts), counts, hosts) && k < l < |cells|
    ensures cells[k].part != cells[l].part
  {
    hide Place, InPicture, SubnetParts;
    SubnetPartsDistinct(counts);
    var sub := SubnetParts(counts);
    if 8 <= k && l < 8 + |sub| {
      assert cells[k].part == sub[k - 8] && cells[l].part == sub[l - 8];
    } else if l < 8 {
      assert cells[k].part == LEGENDS[k] && cells[l].part == LEGENDS[l];
    } else if l < 8 + |sub| {
      SubnetPartsListed(counts, sub[l - 8]);
      assert cells[k].part == LEGENDS[k] && cells[l].part == sub[l - 8] && sub[l - 8] in sub;
    } else if 8 <= k {
      SubnetPartsListed(counts, sub[k - 8]);
      assert cells[k].part == sub[k - 8] && sub[k - 8] in sub && cells[l].part == Table;
    } else {
      assert cells[k].part == LEGENDS[k] && cells[l].part == Table;
    }
  }
}
