/** Which code findings another analyzer agrees with, and which closed ones are open again: each as a
    pairwise rule and as the window the queue reads (internal/analysis/group.go:40-104,
    queue.go:576-587). */
module Corroboration {
  import opened Common
  import opened Sorting

  const GROUP_LINES := 2

  /** A finding with the result it was last reported by. */
  datatype Row = Row(id: nat, build: nat, rule: nat, occurrence: string, path: string, digest: string,
                     line: Option<int>, open: bool, analysis: bool, codeFinding: bool)

  /** A rule belongs to a weakness family, under its analyzer. */
  datatype Family = Family(rule: nat, family: string, tool: string)

  // ----- The rule, pair by pair -----

  predicate Shares(fa: Family, fb: Family, f: Row, g: Row) {
    fa.rule == f.rule && fb.rule == g.rule && fb.family == fa.family && fb.tool != fa.tool
  }

  predicate Within(f: Row, g: Row, lines: nat) {
    f.line.Some? && g.line.Some? && f.line.value - lines <= g.line.value <= f.line.value + lines
  }

  /** Another analyzer's open code finding on the same build, of a family the rules share, whose last
      place is in the same file within so many lines. */
  predicate Nearby(families: seq<Family>, f: Row, g: Row, lines: nat) {
    && g.digest == f.digest && g.path == f.path && Within(f, g, lines)
    && g.build == f.build && g.open && g.analysis && g.rule != f.rule
    && exists a, b :: 0 <= a < |families| && 0 <= b < |families| && Shares(families[a], families[b], f, g)
  }

  // ----- The window -----

  /** A row once for each family of its rule. */
  datatype Placed = Placed(row: Row, family: Family)

  function OpenTool(p: Placed): Option<string> {
    if p.row.open && p.row.analysis then Some(p.family.tool) else None
  }

  function PlacedUnder(row: Row, families: seq<Family>): seq<Placed> {
    if families == [] then []
    else (if families[0].rule == row.rule then [Placed(row, families[0])] else []) + PlacedUnder(row, families[1..])
  }

  /** The rows the set reads: code findings of the scope's builds with a last line, the open ones, and
      the closed ones not opened anew where those are asked for too. */
  predicate Reads(rows: seq<Row>, builds: set<nat>, closed: bool, f: Row) {
    && f.line.Some? && f.codeFinding && f.build in builds
    && (f.open || (closed && f.id !in ReopenedIn(rows, builds)))
  }

  function PlacedIn(rows: seq<Row>, all: seq<Row>, families: seq<Family>, builds: set<nat>, closed: bool): seq<Placed> {
    if rows == [] then []
    else
      (if Reads(all, builds, closed, rows[0]) then PlacedUnder(rows[0], families) else [])
      + PlacedIn(rows[1..], all, families, builds, closed)
  }

  predicate InWindow(p: Placed, q: Placed) {
    && q.row.build == p.row.build && q.row.digest == p.row.digest && q.family.family == p.family.family
    && Within(p.row, q.row, GROUP_LINES)
  }

  /** The open tools of the rows in the window of p. */
  function ToolsNear(placed: seq<Placed>, p: Placed): seq<string> {
    if placed == [] then []
    else
      (if InWindow(p, placed[0]) && OpenTool(placed[0]).Some? then [OpenTool(placed[0]).value] else [])
      + ToolsNear(placed[1..], p)
  }

  function First(tools: seq<string>): Option<string> {
    if tools == [] then None
    else
      var rest := First(tools[1..]);
      if rest.Some? && StringLe(rest.value, tools[0]) then rest else Some(tools[0])
  }

  function Last(tools: seq<string>): Option<string> {
    if tools == [] then None
    else
      var rest := Last(tools[1..]);
      if rest.Some? && StringLe(tools[0], rest.value) then rest else Some(tools[0])
  }

  predicate Differs(tool: Option<string>, own: string) {
    tool.Some? && tool.value != own
  }

  /** The rows whose window's first or last open tool is not their own. */
  function CorroboratedIn(rows: seq<Row>, families: seq<Family>, builds: set<nat>, closed: bool): set<nat> {
    var placed := PlacedIn(rows, rows, families, builds, closed);
    set i | 0 <= i < |placed|
          && (Differs(First(ToolsNear(placed, placed[i])), placed[i].family.tool)
              || Differs(Last(ToolsNear(placed, placed[i])), placed[i].family.tool)) ::
      placed[i].row.id
  }

  // ----- Open again -----

  predicate SamePlace(f: Row, g: Row) {
    g.occurrence == f.occurrence && g.build == f.build
  }

  /** The window's greatest mark: 1 where one of the occurrence on the build is open. */
  function OpenThere(rows: seq<Row>, builds: set<nat>, f: Row): nat {
    if rows == [] then 0
    else
      var rest := OpenThere(rows[1..], builds, f);
      if rows[0].codeFinding && rows[0].build in builds && SamePlace(f, rows[0]) then
        var mark := if rows[0].open then 1 else 0;
        if rest < mark then mark else rest
      else rest
  }

  function ReopenedIn(rows: seq<Row>, builds: set<nat>): set<nat> {
    set i | 0 <= i < |rows| && rows[i].codeFinding && rows[i].build in builds
          && !rows[i].open && OpenThere(rows, builds, rows[i]) == 1 ::
      rows[i].id
  }

  // ----- What the tables promise -----

  ghost predicate OneTool(families: seq<Family>) {
    forall a, b :: 0 <= a < |families| && 0 <= b < |families| ==>
      families[a].rule == families[b].rule && families[a].family == families[b].family ==> families[a] == families[b]
  }

  /** One row to a finding; one row to a rule and family, so a rule belongs to a family once; an
      analysis finding is a code finding; and a path's digest tells it from every other. */
  ghost predicate Kept(rows: seq<Row>, families: seq<Family>) {
    && (forall i, j :: 0 <= i < |rows| && 0 <= j < |rows| && rows[i].id == rows[j].id ==> rows[i] == rows[j])
    && (forall i, j :: 0 <= i < |rows| && 0 <= j < |rows| && rows[i].digest == rows[j].digest ==> rows[i].path == rows[j].path)
    && (forall i :: 0 <= i < |rows| && rows[i].analysis ==> rows[i].codeFinding)
    && OneTool(families)
  }

  /** Another analyzer's open code finding beside this one: on the same build, in the same file by path
      and content, two lines away at most, its rule another and of a family both rules are in under
      different tools. */
  ghost predicate Beside(families: seq<Family>, f: Row, g: Row) {
    && f.line.Some? && g.line.Some? && f.line.value - 2 <= g.line.value && g.line.value <= f.line.value + 2
    && g.build == f.build && g.path == f.path && g.digest == f.digest
    && g.open && g.analysis && g.rule != f.rule
    && exists a, b :: a in families && b in families && a.rule == f.rule && b.rule == g.rule
                   && a.family == b.family && a.tool != b.tool
  }

  lemma BesideIsNearby(families: seq<Family>, f: Row, g: Row)
    ensures Nearby(families, f, g, GROUP_LINES) <==> Beside(families, f, g)
  {
    if Nearby(families, f, g, GROUP_LINES) {
      var a, b :| 0 <= a < |families| && 0 <= b < |families| && Shares(families[a], families[b], f, g);
      assert families[a] in families && families[b] in families;
    }
    if Beside(families, f, g) {
      var x, y :| x in families && y in families && x.rule == f.rule && y.rule == g.rule && x.family == y.family && x.tool != y.tool;
      var a :| 0 <= a < |families| && families[a] == x;
      var b :| 0 <= b < |families| && families[b] == y;
      assert Shares(families[a], families[b], f, g);
    }
  }

  // ----- The window means the rule -----

  lemma {:induction false} InOpenThere(rows: seq<Row>, builds: set<nat>, f: Row)
    ensures OpenThere(rows, builds, f) <= 1
    ensures OpenThere(rows, builds, f) == 1 <==>
      exists g :: g in rows && g.codeFinding && g.build in builds && SamePlace(f, g) && g.open
  {
    if rows != [] {
      InOpenThere(rows[1..], builds, f);
      assert forall g :: g in rows <==> g == rows[0] || g in rows[1..];
    }
  }

  /** A closed code finding is open again exactly when an open code finding of its occurrence is on
      its build. */
  lemma ReopenedIsPairwise(rows: seq<Row>, families: seq<Family>, builds: set<nat>, f: Row)
    requires Kept(rows, families) && f in rows && f.codeFinding && f.build in builds
    ensures f.id in ReopenedIn(rows, builds) <==>
      !f.open && exists g :: g in rows && g.codeFinding && g.open && g.occurrence == f.occurrence && g.build == f.build
  {
    var i :| 0 <= i < |rows| && rows[i] == f;
    InOpenThere(rows, builds, f);
    if f.id in ReopenedIn(rows, builds) {
      var j :| 0 <= j < |rows| && !rows[j].open && OpenThere(rows, builds, rows[j]) == 1 && rows[j].id == f.id;
      assert rows[j] == f;
    }
  }

  lemma {:induction false} InPlacedUnder(row: Row, families: seq<Family>, p: Placed)
    ensures p in PlacedUnder(row, families) <==> p.row == row && p.family in families && p.family.rule == row.rule
  {
    if families != [] {
      InPlacedUnder(row, families[1..], p);
      assert p.family in families <==> p.family == families[0] || p.family in families[1..];
      assert Placed(p.row, p.family) == p;
    }
  }

  lemma {:induction false} InPlacedIn(rows: seq<Row>, all: seq<Row>, families: seq<Family>, builds: set<nat>, closed: bool, p: Placed)
    ensures p in PlacedIn(rows, all, families, builds, closed) <==>
      p.row in rows && Reads(all, builds, closed, p.row) && p.family in families && p.family.rule == p.row.rule
  {
    hide Reads, PlacedUnder;
    if rows != [] {
      InPlacedIn(rows[1..], all, families, builds, closed, p);
      InPlacedUnder(rows[0], families, p);
      assert p.row in rows <==> p.row == rows[0] || p.row in rows[1..];
    }
  }

  lemma {:induction false} InToolsNear(placed: seq<Placed>, p: Placed, tool: string)
    ensures tool in ToolsNear(placed, p) <==> exists q :: q in placed && InWindow(p, q) && OpenTool(q) == Some(tool)
  {
    hide InWindow;
    if placed != [] {
      InToolsNear(placed[1..], p, tool);
      assert forall q :: q in placed <==> q == placed[0] || q in placed[1..];
    }
  }

  /** The first and the last of a list differ from a tool somewhere exactly when the list does. */
  lemma {:induction false} EndsDiffer(tools: seq<string>, own: string)
    ensures Differs(First(tools), own) || Differs(Last(tools), own) <==> exists tool :: tool in tools && tool != own
    ensures First(tools).Some? ==> First(tools).value in tools && forall tool :: tool in tools ==> StringLe(First(tools).value, tool)
    ensures Last(tools).Some? ==> Last(tools).value in tools && forall tool :: tool in tools ==> StringLe(tool, Last(tools).value)
    ensures First(tools).Some? <==> tools != []
    ensures Last(tools).Some? <==> tools != []
  {
    hide StringLe;
    if tools != [] {
      EndsDiffer(tools[1..], own);
      var first, last := First(tools).value, Last(tools).value;
      forall tool | tool in tools ensures StringLe(first, tool) && StringLe(tool, last) {
        assert tool == tools[0] || tool in tools[1..];
        StringLeTotal(tools[0], tools[0]);
        if tools[1..] != [] {
          StringLeTotal(First(tools[1..]).value, tools[0]);
          StringLeTotal(Last(tools[1..]).value, tools[0]);
          if tool in tools[1..] {
            if first == tools[0] { StringLeTransitive(first, First(tools[1..]).value, tool); }
            if last == tools[0] { StringLeTransitive(tool, Last(tools[1..]).value, last); }
          }
        }
      }
      assert first in tools && last in tools;
      if tool :| tool in tools && tool != own {
        assert StringLe(first, tool) && StringLe(tool, last);
        if first == own && last == own {
          StringLeTotal(tool, own);
          assert false;
        }
        assert Differs(First(tools), own) || Differs(Last(tools), own);
      }
    }
  }

  lemma WindowIsNearby(rows: seq<Row>, families: seq<Family>, builds: set<nat>, closed: bool, f: Row)
    requires Kept(rows, families) && f in rows
    ensures f.id in CorroboratedIn(rows, families, builds, closed) <==>
      Reads(rows, builds, closed, f) && exists g :: g in rows && Nearby(families, f, g, GROUP_LINES)
  {
    hide PlacedIn, ToolsNear, First, Last, Reads;
    var placed := PlacedIn(rows, rows, families, builds, closed);
    if f.id in CorroboratedIn(rows, families, builds, closed) {
      var i :| 0 <= i < |placed| && placed[i].row.id == f.id
            && (Differs(First(ToolsNear(placed, placed[i])), placed[i].family.tool)
                || Differs(Last(ToolsNear(placed, placed[i])), placed[i].family.tool));
      InPlacedIn(rows, rows, families, builds, closed, placed[i]);
      OtherToolIsNearby(rows, families, builds, closed, placed[i]);
    }
    if Reads(rows, builds, closed, f) && exists g :: g in rows && Nearby(families, f, g, GROUP_LINES) {
      var g :| g in rows && Nearby(families, f, g, GROUP_LINES);
      var a, b :| 0 <= a < |families| && 0 <= b < |families| && Shares(families[a], families[b], f, g);
      NearbyIsOtherTool(rows, families, builds, closed, f, g, families[a], families[b]);
      var p := Placed(f, families[a]);
      var i :| 0 <= i < |placed| && placed[i] == p;
    }
  }

  lemma OtherToolIsNearby(rows: seq<Row>, families: seq<Family>, builds: set<nat>, closed: bool, p: Placed)
    requires Kept(rows, families) && p in PlacedIn(rows, rows, families, builds, closed)
    requires var tools := ToolsNear(PlacedIn(rows, rows, families, builds, closed), p);
             Differs(First(tools), p.family.tool) || Differs(Last(tools), p.family.tool)
    ensures exists g :: g in rows && Nearby(families, p.row, g, GROUP_LINES)
  {
    hide PlacedIn, ToolsNear, First, Last, Reads, Differs;
    var placed := PlacedIn(rows, rows, families, builds, closed);
    EndsDiffer(ToolsNear(placed, p), p.family.tool);
    var tool :| tool in ToolsNear(placed, p) && tool != p.family.tool;
    InToolsNear(placed, p, tool);
    var q :| q in placed && InWindow(p, q) && OpenTool(q) == Some(tool);
    InPlacedIn(rows, rows, families, builds, closed, p);
    InPlacedIn(rows, rows, families, builds, closed, q);
    SharedFamily(rows, families, p, q);
  }

  lemma SharedFamily(rows: seq<Row>, families: seq<Family>, p: Placed, q: Placed)
    requires Kept(rows, families) && p.row in rows && q.row in rows
    requires p.family in families && q.family in families && p.family.rule == p.row.rule && q.family.rule == q.row.rule
    requires InWindow(p, q) && OpenTool(q).Some? && OpenTool(q).value != p.family.tool
    ensures Nearby(families, p.row, q.row, GROUP_LINES)
  {
    var a :| 0 <= a < |families| && families[a] == p.family;
    var b :| 0 <= b < |families| && families[b] == q.family;
    assert Shares(families[a], families[b], p.row, q.row);
  }

  lemma NearbyIsOtherTool(rows: seq<Row>, families: seq<Family>, builds: set<nat>, closed: bool,
                          f: Row, g: Row, fa: Family, fb: Family)
    requires Kept(rows, families) && f in rows && g in rows && fa in families && fb in families
    requires Reads(rows, builds, closed, f) && Nearby(families, f, g, GROUP_LINES) && Shares(fa, fb, f, g)
    ensures var placed, p := PlacedIn(rows, rows, families, builds, closed), Placed(f, fa);
            p in placed
            && (Differs(First(ToolsNear(placed, p)), fa.tool) || Differs(Last(ToolsNear(placed, p)), fa.tool))
  {
    hide PlacedIn, ToolsNear, First, Last, Differs;
    var placed, p, q := PlacedIn(rows, rows, families, builds, closed), Placed(f, fa), Placed(g, fb);
    InPlacedIn(rows, rows, families, builds, closed, p);
    InPlacedIn(rows, rows, families, builds, closed, q);
    assert q in placed && InWindow(p, q) && OpenTool(q) == Some(fb.tool);
    InToolsNear(placed, p, fb.tool);
    EndsDiffer(ToolsNear(placed, p), fa.tool);
  }

  /** An open code finding of the occurrence on its build. */
  ghost predicate OpenAgain(rows: seq<Row>, f: Row) {
    exists g :: g in rows && g.codeFinding && g.open && g.occurrence == f.occurrence && g.build == f.build
  }

  lemma ReadsIs(rows: seq<Row>, families: seq<Family>, builds: set<nat>, closed: bool, f: Row)
    requires Kept(rows, families) && f in rows
    ensures Reads(rows, builds, closed, f) <==>
      f.line.Some? && f.codeFinding && f.build in builds && (f.open || (closed && !OpenAgain(rows, f)))
  {
    hide ReopenedIn, Kept;
    if f.codeFinding && f.build in builds { ReopenedIsPairwise(rows, families, builds, f); }
  }

  /** What the queue's window answers is the pairwise rule: of the code findings of these builds with a
      line, the open ones and, asked for, the closed ones not open again, exactly those with another
      analyzer's open code finding beside them. */
  lemma WindowIsPairwise(rows: seq<Row>, families: seq<Family>, builds: set<nat>, closed: bool, f: Row)
    requires Kept(rows, families) && f in rows
    ensures f.id in CorroboratedIn(rows, families, builds, closed) <==>
      && f.line.Some? && f.codeFinding && f.build in builds && (f.open || (closed && !OpenAgain(rows, f)))
      && exists g :: g in rows && Beside(families, f, g)
  {
    hide CorroboratedIn, Reads, Nearby, Beside, OpenAgain, Kept;
    WindowIsNearby(rows, families, builds, closed, f);
    ReadsIs(rows, families, builds, closed, f);
    forall g ensures Nearby(families, f, g, GROUP_LINES) <==> Beside(families, f, g) { BesideIsNearby(families, f, g); }
  }
}
