/** Requests that show what is outside the served root. */
module Outside {
  import opened CBytes
  import opened Paths
  import opened Resolve
  import opened Answers
  import opened Files
  import opened Requests
  import opened Streams
  import opened Containment
  import opened Detours

  // With ".." the answer tells what is outside

  const NAME_X: Bytes := [120]

  /** "/" with the directories "s" and "x", and without "x". */
  const WITH_X: Tree := map[[] := Dir, [NAME_S] := Dir, [NAME_X] := Dir]
  const WITHOUT_X: Tree := map[[] := Dir, [NAME_S] := Dir]

  const PARENT_OF_UP: Bytes := DOTDOT + [SLASH] + NAME_X + [SLASH] + DOTDOT
  const UP_AND_BACK: Bytes := PARENT_OF_UP + [SLASH] + NAME_S

  /** The two trees are alike below "/s", yet "../x/../s" resolves over one of them
      only: whether "/x" is there shows in the reply. */
  lemma DotsSeeOutside()
    ensures Agree(WITH_X, WITHOUT_X, [NAME_S]) && NoLinks(WITH_X) && NoLinks(WITHOUT_X)
    ensures RootPath(AT_S, WITH_X) == Some([NAME_S]) == RootPath(AT_S, WITHOUT_X)
    ensures FullPath(AT_S, WITH_X, UP_AND_BACK) == Some(Render([NAME_S]))
    ensures FullPath(AT_S, WITHOUT_X, UP_AND_BACK) == None && Detour([NAME_S], UP_AND_BACK)
  {
    TreesAgree();
    ExampleRoot(WITH_X);
    ExampleRoot(WITHOUT_X);
    AnswerWithX();
    AnswerWithoutX();
    ExampleIsDetour();
  }

  lemma TreesAgree()
    ensures Agree(WITH_X, WITHOUT_X, [NAME_S]) && NoLinks(WITH_X) && NoLinks(WITHOUT_X)
  {
    assert NAME_S[0] != NAME_X[0];
    assert forall p :: [NAME_S] <= p && p in WITH_X ==> p == [NAME_S];
  }

  lemma ExampleIsDetour()
    ensures Detour([NAME_S], UP_AND_BACK)
  {
    ExampleParts();
    hide Detour, FullPath, Agree, NoLinks, Served, RootPath, WITH_X, WITHOUT_X, UP_AND_BACK, PARENT_OF_UP, Render,
      Split, Front, LastSlash, SkipSlashes;
    ExampleRoot(WITH_X);
    ExampleRoot(WITHOUT_X);
    AnswerWithX();
    AnswerWithoutX();
    TreesAgree();
    ShortName();
    assert Alike(AT_S, WITH_X, WITHOUT_X, [NAME_S]);
    if !Detour([NAME_S], UP_AND_BACK) {
      StraightFullPath(AT_S, WITH_X, WITHOUT_X, [NAME_S], UP_AND_BACK);
    }
  }

  lemma AnswerWithX()
    ensures FullPath(AT_S, WITH_X, UP_AND_BACK) == Some(Render([NAME_S]))
  {
    ExampleRoot(WITH_X);
    ExampleParts();
    hide Walk, Split, WITH_X, TempPath, SkipSlashes, UP_AND_BACK, Render, WellFormed, Base, FullPath;
    TempParts(AT_S.root, UP_AND_BACK);
    var l := UnderRoot(WITH_X, [], AT_S.root, UP_AND_BACK, [NAME_S]);
    WalksUpAndBack(l, 0, 0);
    ShortName();
    var q := ExistingShape(AT_S, WITH_X, UP_AND_BACK, [NAME_S]);
  }

  lemma AnswerWithoutX()
    ensures FullPath(AT_S, WITHOUT_X, UP_AND_BACK) == None
  {
    ExampleRoot(WITHOUT_X);
    ExampleParts();
    hide Walk, Split, WITHOUT_X, TempPath, LastSlash, SkipSlashes, UP_AND_BACK, PARENT_OF_UP, Render, WellFormed, Base,
      Realpath, Paths.Resolve;
    var y := HalvesBelow(AT_S.root, UP_AND_BACK);
    TempParts(AT_S.root, UP_AND_BACK);
    NothingBelow(UP_AND_BACK);
    NothingBelow(PARENT_OF_UP);
  }

  lemma NothingBelow(x: Bytes)
    requires x == UP_AND_BACK || x == PARENT_OF_UP
    ensures Realpath(WITHOUT_X, [], Base(AT_S.root) + x) == None
  {
    ExampleRoot(WITHOUT_X);
    ExampleParts();
    hide Walk, Split, WITHOUT_X, UP_AND_BACK, PARENT_OF_UP, WellFormed, Base;
    var l := UnderRoot(WITHOUT_X, [], AT_S.root, x, [NAME_S]);
    WalksUpAndBack(0, l, l);
  }

  lemma ShortName()
    ensures |Render([NAME_S])| == 2
  {
    AbsoluteSnoc([], NAME_S);
    assert [] + [NAME_S] == [NAME_S];
  }

  lemma ExampleRoot(t: Tree)
    requires t == WITH_X || t == WITHOUT_X
    ensures Served(AT_S, t) && RootPath(AT_S, t) == Some([NAME_S])
  {
    assert Up([NAME_S]) == [] && Up([NAME_X]) == [];
    assert WellFormed(t);
    hide WellFormed, Split, Render;
    ShortName();
    RootSplits();
    WalkToS(t, [[], NAME_S]);
  }

  lemma RootSplits()
    ensures Split(AT_S.root) == [[], NAME_S]
  {
    hide Split;
    SplitOne([]);
    SplitOne(NAME_S);
    SplitAtSlash([], NAME_S);
    assert [] + [SLASH] + NAME_S == AT_S.root;
  }

  lemma WalkToS(t: Tree, todo: seq<Bytes>)
    requires t == WITH_X || t == WITHOUT_X
    requires todo == [[], NAME_S]
    ensures Walk(t, [], todo, MAX_LINKS) == Found([NAME_S], MAX_LINKS)
  {
    assert [] in t && t[[]] == Dir && [NAME_S] in t && t[[NAME_S]] == Dir;
    hide WITH_X, WITHOUT_X;
    assert todo[1..] == [NAME_S] && [NAME_S][1..] == [] && [] + [NAME_S] == [NAME_S];
    assert NAME_S[0] != DOT && |DOTDOT| != |NAME_S|;
    assert Walk(t, [NAME_S], [], MAX_LINKS) == Found([NAME_S], MAX_LINKS);
    assert Walk(t, [], [NAME_S], MAX_LINKS) == Found([NAME_S], MAX_LINKS);
    assert Walk(t, [], todo, MAX_LINKS) == Walk(t, [], [NAME_S], MAX_LINKS);
  }

  lemma ExampleParts()
    ensures SkipSlashes(UP_AND_BACK) == UP_AND_BACK && |UP_AND_BACK| == 9
    ensures LastSlash(UP_AND_BACK) == 7 && Front(UP_AND_BACK) == PARENT_OF_UP
    ensures Split(PARENT_OF_UP) == [DOTDOT, NAME_X, DOTDOT]
    ensures Split(UP_AND_BACK) == [DOTDOT, NAME_X, DOTDOT, NAME_S]
  {
    HalvesAre(UP_AND_BACK, PARENT_OF_UP, NAME_S);
    hide Split;
    SplitOne(DOTDOT);
    SplitOne(NAME_X);
    SplitOne(NAME_S);
    SplitAtSlash(DOTDOT + [SLASH] + NAME_X, DOTDOT);
    SplitAtSlash(DOTDOT, NAME_X);
    SplitAtSlash(PARENT_OF_UP, NAME_S);
  }

  lemma WalksUpAndBack(l: nat, m: nat, n: nat)
    ensures Walk(WITH_X, [NAME_S], [DOTDOT, NAME_X, DOTDOT, NAME_S], l) == Found([NAME_S], l)
    ensures Walk(WITHOUT_X, [NAME_S], [DOTDOT, NAME_X, DOTDOT, NAME_S], m) == Fail
    ensures Walk(WITHOUT_X, [NAME_S], [DOTDOT, NAME_X, DOTDOT], n) == Fail
  {
    var todo := [DOTDOT, NAME_X, DOTDOT, NAME_S];
    var t, u := WITH_X, WITHOUT_X;
    assert NAME_S[0] != NAME_X[0] && [NAME_S][0] != [NAME_X][0];
    assert [NAME_X] in t && [NAME_X] !in u && [] + [NAME_X] == [NAME_X] && [] + [NAME_S] == [NAME_S];
    assert Up([NAME_S]) == [] && Up([NAME_X]) == [];
    assert todo[1..] == [NAME_X, DOTDOT, NAME_S] && [NAME_X, DOTDOT, NAME_S][1..] == [DOTDOT, NAME_S];
    assert [DOTDOT, NAME_S][1..] == [NAME_S] && [NAME_S][1..] == [];
    assert Walk(t, [], [NAME_S], l) == Found([NAME_S], l);
    assert Walk(t, [NAME_X], [DOTDOT, NAME_S], l) == Walk(t, [], [NAME_S], l);
    assert Walk(t, [], [NAME_X, DOTDOT, NAME_S], l) == Walk(t, [NAME_X], [DOTDOT, NAME_S], l);
    assert Walk(u, [], [NAME_X, DOTDOT, NAME_S], m) == Fail;
    assert [DOTDOT, NAME_X, DOTDOT][1..] == [NAME_X, DOTDOT];
    assert Walk(u, [], [NAME_X, DOTDOT], n) == Fail;
  }

  // Links that run out in realpath but not in fopen

  const NAME_D: Bytes := [100]

  /** "/s" with the link "d" to "." and the link "l" to the file "/o". */
  const LINKED: Tree :=
    map[[] := Dir, [NAME_S] := Dir, [NAME_S, NAME_D] := Link([DOT]), [NAME_S, NAME_L] := Link([SLASH] + NAME_O),
        [NAME_O] := File([1])]

  /** "d/d/.../d" */
  function Rounds(k: nat): Bytes {
    if k == 0 then NAME_D else NAME_D + [SLASH] + Rounds(k - 1)
  }

  const MANY_LINKS: Bytes := Rounds(39) + [SLASH] + NAME_L

  lemma {:induction false} SplitRounds(k: nat)
    ensures Split(Rounds(k)) == seq(k + 1, _ => NAME_D) && |Rounds(k)| == 2 * k + 1 && Rounds(k)[0] == NAME_D[0]
  {
    hide Split;
    SplitOne(NAME_D);
    if k == 0 {
      assert seq(1, _ => NAME_D) == [NAME_D];
    } else {
      SplitRounds(k - 1);
      SplitAtSlash(NAME_D, Rounds(k - 1));
      assert seq(k + 1, _ => NAME_D) == [NAME_D] + seq(k, _ => NAME_D);
    }
  }

  lemma LinkedParts()
    ensures WellFormed(LINKED)
    ensures [NAME_S] in LINKED && LINKED[[NAME_S]] == Dir && [] in LINKED && LINKED[[]] == Dir
    ensures [NAME_S] + [NAME_D] in LINKED && LINKED[[NAME_S] + [NAME_D]] == Link([DOT])
    ensures [NAME_S] + [NAME_L] in LINKED && LINKED[[NAME_S] + [NAME_L]] == Link([SLASH] + NAME_O)
    ensures [] + [NAME_O] == [NAME_O] && [NAME_O] in LINKED && LINKED[[NAME_O]] == File([1])
    ensures [] + [NAME_S] == [NAME_S]
  {
    assert NAME_S[0] != NAME_O[0] && NAME_D[0] != NAME_L[0] && [NAME_S, NAME_D][1] != [NAME_S, NAME_L][1];
    assert [NAME_S][0] != [NAME_O][0];
    assert [NAME_S] + [NAME_D] == [NAME_S, NAME_D] && [NAME_S] + [NAME_L] == [NAME_S, NAME_L];
    assert Up([NAME_S]) == [] && Up([NAME_O]) == [];
    assert Up([NAME_S, NAME_D]) == [NAME_S] && Up([NAME_S, NAME_L]) == [NAME_S];
    assert Last([NAME_S, NAME_D]) == NAME_D && Last([NAME_S, NAME_L]) == NAME_L;
  }

  /** Each "d" takes one link and stays where it is. */
  lemma {:induction false} RoundsWalk(k: nat, rest: seq<Bytes>, links: nat)
    ensures Walk(LINKED, [NAME_S], seq(k, _ => NAME_D) + rest, links) ==
            if k <= links then Walk(LINKED, [NAME_S], rest, links - k) else Fail
  {
    LinkedParts();
    hide LINKED, WellFormed;
    if k == 0 {
      assert seq(k, _ => NAME_D) + rest == rest;
    } else {
      var todo := seq(k, _ => NAME_D) + rest;
      var tail := seq(k - 1, _ => NAME_D) + rest;
      assert todo[0] == NAME_D && todo[1..] == tail && NAME_D[0] != DOT && |NAME_D| == 1;
      if links > 0 {
        SplitOne([DOT]);
        assert Split([DOT]) + tail == [[DOT]] + tail && ([[DOT]] + tail)[1..] == tail;
        assert Walk(LINKED, [NAME_S], [[DOT]] + tail, links - 1) == Walk(LINKED, [NAME_S], tail, links - 1);
        RoundsWalk(k - 1, rest, links - 1);
      }
    }
  }

  /** The link "l" leads out, as long as one link may be followed. */
  lemma LinkWalk(links: nat)
    ensures var w := Walk(LINKED, [NAME_S], [NAME_L], links);
            if links == 0 then w == Fail else w == Found([NAME_O], links - 1)
  {
    LinkedParts();
    hide LINKED, WellFormed;
    assert NAME_L[0] != DOT && |NAME_L| == 1 && [NAME_L][1..] == [];
    if links > 0 {
      SplitAtSlash([], NAME_O);
      SplitOne(NAME_O);
      SplitOne([]);
      var todo := [[], NAME_O];
      assert [] + [SLASH] + NAME_O == [SLASH] + NAME_O && Split([SLASH] + NAME_O) == todo;
      assert todo + [] == todo && todo[1..] == [NAME_O] && [NAME_O][1..] == [];
      assert NAME_O[0] != DOT && |NAME_O| == 1;
      assert Walk(LINKED, [], [NAME_O], links - 1) == Found([NAME_O], links - 1);
      assert Walk(LINKED, [], todo, links - 1) == Walk(LINKED, [], [NAME_O], links - 1);
    }
  }

  lemma StepsToS(rest: seq<Bytes>)
    ensures Walk(LINKED, [], [[], NAME_S] + rest, MAX_LINKS) == Walk(LINKED, [NAME_S], rest, MAX_LINKS)
  {
    LinkedParts();
    hide LINKED, WellFormed;
    var next := [NAME_S] + rest;
    assert ([[], NAME_S] + rest)[1..] == next && next[1..] == rest;
    assert NAME_S[0] != DOT && |NAME_S| == 1;
    assert Walk(LINKED, [], next, MAX_LINKS) == Walk(LINKED, [NAME_S], rest, MAX_LINKS);
  }

  /** Below "/s" all 40 links are still there. */
  lemma FromS(x: Bytes)
    ensures Paths.Resolve(LINKED, [], [SLASH] + NAME_S + [SLASH] + x) == Walk(LINKED, [NAME_S], Split(x), MAX_LINKS)
  {
    LinkedParts();
    RootSplits();
    hide LINKED, WellFormed, Split;
    SplitAtSlash([SLASH] + NAME_S, x);
    StepsToS(Split(x));
  }

  lemma LinkedRoot()
    ensures RootPath(AT_S, LINKED) == Some([NAME_S])
  {
    LinkedParts();
    ShortName();
    hide LINKED, WellFormed, Render;
    ResolveRender(LINKED, [], [NAME_S]);
    AbsoluteSnoc([], NAME_S);
    RenderIsAbsolute([NAME_S]);
    assert AT_S.root == Render([NAME_S]);
  }

  /** The 40 rounds take all links, so there is none left for the last one. */
  lemma LinksTaken()
    ensures Paths.Resolve(LINKED, [], [SLASH] + NAME_S + [SLASH] + MANY_LINKS) == Fail
    ensures Paths.Resolve(LINKED, [], [SLASH] + NAME_S + [SLASH] + Rounds(39)) == Found([NAME_S], 0)
  {
    SplitRounds(39);
    NothingAhead();
    LinkWalk(0);
    hide LINKED, Split, Walk, Rounds, Paths.Resolve;
    SplitOne(NAME_L);
    SplitAtSlash(Rounds(39), NAME_L);
    FromS(MANY_LINKS);
    FromS(Rounds(39));
    RoundsWalk(40, [NAME_L], MAX_LINKS);
    RoundsWalk(40, [], MAX_LINKS);
    assert seq(40, _ => NAME_D) + [] == seq(40, _ => NAME_D);
  }

  lemma ManyLinksHalves(temp: Bytes)
    requires temp == [SLASH] + NAME_S + [SLASH] + MANY_LINKS
    ensures LastSlash(temp) >= 0 && Front(temp) == [SLASH] + NAME_S + [SLASH] + Rounds(39) && Tail(temp) == NAME_L
  {
    var front := [SLASH] + NAME_S + [SLASH] + Rounds(39);
    hide Rounds, LastSlash;
    assert temp == front + [SLASH] + NAME_L;
    HalvesAre(temp, front, NAME_L);
  }

  /** The name of the link, spelt and as a node. */
  lemma LinkName()
    ensures Render([NAME_S]) == [SLASH] + NAME_S && Render([NAME_S] + [NAME_L]) == [SLASH] + NAME_S + [SLASH] + NAME_L
    ensures BelowRoot(Render([NAME_S] + [NAME_L]), Render([NAME_S]))
  {
    LinkedParts();
    hide LINKED, WellFormed, Render;
    AbsoluteSnoc([], NAME_S);
    AbsoluteSnoc([NAME_S], NAME_L);
    assert [] + [NAME_S] == [NAME_S];
    RenderIsAbsolute([NAME_S]);
    RenderIsAbsolute([NAME_S] + [NAME_L]);
    EntryTest(LINKED, [NAME_S], NAME_L, [NAME_S]);
  }

  lemma ManyLinksResolved(temp: Bytes)
    requires temp == [SLASH] + NAME_S + [SLASH] + MANY_LINKS
    ensures Resolved(AT_S, LINKED, temp) == Some(Render([NAME_S] + [NAME_L]))
  {
    LinksTaken();
    ManyLinksHalves(temp);
    LinkName();
    hide LINKED, MANY_LINKS, Rounds, Render, Paths.Resolve, LastSlash, Front, Tail, BelowRoot, Resolved;
    ResolvedFrom(AT_S, LINKED, temp);
  }

  lemma ManyLinksAnswer()
    ensures |MANY_LINKS| == 81 && FullPath(AT_S, LINKED, MANY_LINKS) == Some(Render([NAME_S] + [NAME_L]))
  {
    SplitRounds(39);
    LinkedRoot();
    LinkName();
    ManyLinksTemp();
    hide LINKED, Rounds, Render, TempPath, Resolved, BelowRoot, RootPath;
    ManyLinksResolved(TempPath(AT_S.root, MANY_LINKS));
  }

  lemma NothingAhead()
    ensures Walk(LINKED, [NAME_S], [], 0) == Found([NAME_S], 0)
  {
  }

  lemma ManyLinksTemp()
    ensures TempPath(AT_S.root, MANY_LINKS) == [SLASH] + NAME_S + [SLASH] + MANY_LINKS
  {
    SplitRounds(39);
    hide Rounds, Split;
    assert SkipSlashes(MANY_LINKS) == MANY_LINKS;
    TempParts(AT_S.root, MANY_LINKS);
  }

  lemma LinkLeadsOut()
    ensures Stat(LINKED, [], Render([NAME_S] + [NAME_L])) == Some([NAME_O])
  {
    LinkedParts();
    hide LINKED, WellFormed, Walk, Render, Split, Absolute, Paths.Resolve;
    ResolveBelow(LINKED, [], [NAME_S], NAME_L);
    LinkWalk(MAX_LINKS);
  }

  lemma ManyLinksTarget()
    ensures FullPathIn(AT_S, LINKED, MANY_LINKS, MAX_PATH_SIZE) == Some(Render([NAME_S] + [NAME_L]))
    ensures MANY_LINKS != []
  {
    ManyLinksAnswer();
    LinkName();
    hide LINKED, MANY_LINKS, Render, FullPath, BelowRoot;
  }

  lemma ManyLinksFile(env: Env)
    requires env.place == AT_S
    ensures InfoTarget(AT_S, LINKED, MANY_LINKS) == Some([NAME_O])
    ensures GetFits(env, LINKED, MANY_LINKS) && GetContent(env, LINKED, MANY_LINKS) == Some([1])
  {
    LinkedParts();
    ManyLinksTarget();
    ManyLinksAnswer();
    LinkLeadsOut();
    LinkName();
    hide LINKED, WellFormed, MANY_LINKS, Render, FullPath, FullPathIn, Stat, BelowRoot;
  }

  lemma ManyLinksReply(env: Env)
    requires env.place == AT_S
    ensures GetReply(env, LINKED, MANY_LINKS) == (true, Header(RESP_OK, 1) + [1])
  {
    ManyLinksFile(env);
    hide *;
    GetAnswersFile(env, LINKED, MANY_LINKS);
  }

  /** Forty times "d/" and then "l": realpath runs out of links, the answer names
      the link "l", and GET sends the file outside the root that it leads to. */
  lemma LinksRunOut(env: Env)
    requires env.place == AT_S
    ensures Served(AT_S, LINKED) && RootPath(AT_S, LINKED) == Some([NAME_S]) && !([NAME_S] <= [NAME_O])
    ensures InfoTarget(AT_S, LINKED, MANY_LINKS) == Some([NAME_O])
    ensures GetReply(env, LINKED, MANY_LINKS) == (true, Header(RESP_OK, 1) + [1])
  {
    LinkedRoot();
    LinkedParts();
    assert NAME_S[0] != NAME_O[0] && [NAME_S][0] != [NAME_O][0];
    assert !([NAME_S] <= [NAME_O]) && Served(AT_S, LINKED);
    hide *;
    ManyLinksFile(env);
    ManyLinksReply(env);
  }
}
