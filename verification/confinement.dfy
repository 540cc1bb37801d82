/** What every run of the concurrent server leaves alone. */
module Confinement {
  import opened CBytes
  import opened Paths
  import opened Resolve
  import opened Stability
  import opened Answers
  import opened Requests
  import opened Streams
  import opened Slots
  import opened Containment

  /** The tree has stayed a tree with level links and the same root, nothing has
      changed outside it, and the files that are open for PUTs are below it. */
  ghost predicate Confined(env: Env, tree: Tree, top: Path, s: Sys) {
    && Served(env.place, s.tree) && LevelLinks(s.tree, top) && RootIs(env.place, s.tree, top)
    && SameOutside(tree, s.tree, top)
    && forall w :: 0 <= w < |s.workers| && s.workers[w].pc.Putting? ==> top <= s.workers[w].pc.target
  }

  lemma RewriteKeepsRoot(place: Place, t: Tree, p: Path, node: Node, top: Path)
    requires Served(place, t) && RootIs(place, t, top) && p in t && t[p].File? && node.File?
    ensures Served(place, t[p := node]) && RootIs(place, t[p := node], top)
  {
    hide RootPath;
    var u := t[p := node];
    AddedNode(t, p, node);
    assert Extends(u, t);
    hide WellFormed;
    PlaceStable(place, t, u);
    PlaceStable(place, u, t);
  }

  /** A request is served. */
  lemma ServeConfined(env: Env, t: Tree, role: int, req: Request, top: Path)
    requires Served(env.place, t) && LevelLinks(t, top) && RootIs(env.place, t, top) && |Render(top)| < STREAM_PATH_SIZE
    ensures var u := Exec(env, t, role, req).tree;
            Served(env.place, u) && LevelLinks(u, top) && RootIs(env.place, u, top) && SameOutside(t, u, top)
  {
    hide Exec, LevelLinks, RootIs, WellFormed, SameOutside, OpensBelow, Render;
    LevelOpensBelow(env, t, role, req, top);
    ExecStaysBelow(env, t, role, req, top);
    ExecKeepsRoot(env, t, role, req, top);
    ExecKeepsTree(env, t, role, req);
    LinksStayLevel(env, t, role, req, top);
  }

  /** A PUT opens its file: as if it had been served with no data. */
  lemma OpenConfined(env: Env, t: Tree, role: int, req: Request, top: Path)
    requires Served(env.place, t) && LevelLinks(t, top) && RootIs(env.place, t, top) && |Render(top)| < STREAM_PATH_SIZE
    requires PutOpens(env, t, role, req).Some?
    ensures var p := PutOpens(env, t, role, req).value;
            var u := t[p := File([])];
            && top <= p && Served(env.place, u) && LevelLinks(u, top)
            && RootIs(env.place, u, top) && SameOutside(t, u, top)
  {
    hide Exec, LevelLinks, RootIs, Served, SameOutside, Render, PutTarget, CheckPermission, Gated;
    var empty := Requests.Request(req.cmd, req.path, []);
    assert PutOpens(env, t, role, empty) == PutOpens(env, t, role, req);
    LevelOpensBelow(env, t, role, empty, top);
    ServeConfined(env, t, role, empty, top);
    PutOpensExec(env, t, role, empty);
  }

  lemma OutsideStill(t: Tree, u: Tree, v: Tree, top: Path)
    requires SameOutside(t, u, top) && SameOutside(u, v, top)
    ensures SameOutside(t, v, top)
  {
  }

  lemma MainConfined(env: Env, tree: Tree, top: Path, s: Sys, step: Step)
    requires Shape(s) && Confined(env, tree, top, s) && !IsWorkerStep(step)
    ensures Confined(env, tree, top, MainStep(s, step))
  {
    hide Served, LevelLinks, RootIs, SameOutside, FirstFree;
  }

  lemma WorkerConfined(env: Env, tree: Tree, top: Path, s: Sys, step: Step)
    requires Shape(s) && Confined(env, tree, top, s) && |Render(top)| < STREAM_PATH_SIZE
    requires IsWorkerStep(step) && step.w < |s.workers|
    ensures Confined(env, tree, top, WorkerStep(env, s, step))
  {
    hide Served, LevelLinks, RootIs, SameOutside, Exec, PutOpens, Render;
    var me, t := s.workers[step.w], s.tree;
    if step.Serve? && me.pc.Serving? {
      ServeConfined(env, t, s.roles[me.slot], step.req, top);
      OutsideStill(tree, t, Exec(env, t, s.roles[me.slot], step.req).tree, top);
    } else if step.PutOpen? && me.pc.Serving? && PutOpens(env, t, s.roles[me.slot], step.req).Some? {
      OpenConfined(env, t, s.roles[me.slot], step.req, top);
      OutsideStill(tree, t, t[PutOpens(env, t, s.roles[me.slot], step.req).value := File([])], top);
    } else if step.PutChunk? && me.pc.Putting? && me.pc.target in t && t[me.pc.target].File? {
      ChunkConfined(env, t, top, me.pc.target, File(t[me.pc.target].content + step.data));
      OutsideStill(tree, t, t[me.pc.target := File(t[me.pc.target].content + step.data)], top);
    }
  }

  lemma ChunkConfined(env: Env, t: Tree, top: Path, p: Path, node: Node)
    requires Served(env.place, t) && LevelLinks(t, top) && RootIs(env.place, t, top)
    requires p in t && t[p].File? && node.File? && top <= p
    ensures var u := t[p := node];
            Served(env.place, u) && LevelLinks(u, top) && RootIs(env.place, u, top) && SameOutside(t, u, top)
  {
    hide RootIs, Served;
    RewriteKeepsRoot(env.place, t, p, node, top);
  }

  lemma {:induction false} RunConfined(env: Env, tree: Tree, top: Path, s: Sys, steps: seq<Step>)
    requires Shape(s) && Confined(env, tree, top, s) && |Render(top)| < STREAM_PATH_SIZE
    ensures Confined(env, tree, top, Run(env, s, steps))
    decreases |steps|
  {
    hide Confined, MainStep, WorkerStep, Shape, Render;
    if steps != [] {
      if !IsWorkerStep(steps[0]) {
        MainConfined(env, tree, top, s, steps[0]);
      } else if steps[0].w < |s.workers| {
        WorkerConfined(env, tree, top, s, steps[0]);
      }
      RunConfined(env, tree, top, Do(env, s, steps[0]), steps[1..]);
    }
  }

  /** When the links at and below the root are level, no run of the server on any
      connections, however their steps interleave, changes anything outside it. */
  lemma RunStaysBelow(env: Env, tree: Tree, steps: seq<Step>, top: Path)
    requires Served(env.place, tree) && RootPath(env.place, tree) == Some(top) && |Render(top)| < STREAM_PATH_SIZE
    requires LevelLinks(tree, top)
    ensures SameOutside(tree, Run(env, Initial(tree), steps).tree, top)
  {
    hide Run, Served, RootPath, LevelLinks, Render;
    RunConfined(env, tree, top, Initial(tree), steps);
  }
}
