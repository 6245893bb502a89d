/**
 * The minimum-camera cover of a binary tree given as a level-order token
 * string (Main.java): Java's `String.split(" ")` and `Integer.parseInt`, the
 * queue-driven `buildTree`, and the three-state bottom-up `dfs`.
 */
module TreeCamera {
  import opened Basics
  import opened Decimal

  // ---------------------------------------------------------------------
  // Tokens: String.split(" ") and Integer.parseInt
  // ---------------------------------------------------------------------

  /** The pieces of s between its ' ' characters, empty pieces included. */
  function Pieces(s: string): (r: seq<string>)
    ensures |r| >= 1
    ensures forall i :: 0 <= i < |r| ==> ' ' !in r[i]
  {
    if |s| == 0 then [""]
    else
      var p := Pieces(s[..|s| - 1]);
      if s[|s| - 1] == ' ' then p + [""]
      else p[..|p| - 1] + [p[|p| - 1] + [s[|s| - 1]]]
  }

  /** The pieces glued back together with one ' ' between neighbours. */
  function Join(ps: seq<string>): string
    requires |ps| >= 1
  {
    if |ps| == 1 then ps[0] else Join(ps[..|ps| - 1]) + " " + ps[|ps| - 1]
  }

  /** Splitting at every ' ' loses nothing: joining the pieces gives the input back. */
  lemma {:induction false} JoinPieces(s: string)
    ensures Join(Pieces(s)) == s
  {
    if |s| > 0 {
      var s' := s[..|s| - 1];
      var c := s[|s| - 1];
      assert s == s' + [c];
      JoinPieces(s');
      if c == ' ' {
        assert Pieces(s) == Pieces(s') + [""];
        JoinNewPiece(Pieces(s'));
      } else {
        var p := Pieces(s');
        assert Pieces(s) == p[..|p| - 1] + [p[|p| - 1] + [c]];
        JoinLongerPiece(p, c);
      }
    }
  }

  /** A new empty last piece adds one ' ' to the joined text. */
  lemma JoinNewPiece(p: seq<string>)
    requires |p| >= 1
    ensures Join(p + [""]) == Join(p) + " "
  {
    assert (p + [""])[..|p|] == p;
  }

  /** A character added to the last piece is added to the end of the joined text. */
  lemma JoinLongerPiece(p: seq<string>, c: char)
    requires |p| >= 1
    ensures Join(p[..|p| - 1] + [p[|p| - 1] + [c]]) == Join(p) + [c]
  {
    var q := p[..|p| - 1] + [p[|p| - 1] + [c]];
    assert |q| == |p| && q[|q| - 1] == p[|p| - 1] + [c];
    if |p| > 1 {
      assert q[..|q| - 1] == p[..|p| - 1];
      var front := Join(p[..|p| - 1]) + " ";
      assert Join(q) == front + (p[|p| - 1] + [c]);
      assert Join(p) == front + p[|p| - 1];
      assert front + (p[|p| - 1] + [c]) == (front + p[|p| - 1]) + [c];
    }
  }

  function DropTrailingEmpty(ps: seq<string>): (r: seq<string>)
    ensures |r| <= |ps| && r == ps[..|r|]
    ensures forall i :: |r| <= i < |ps| ==> ps[i] == ""
    ensures |r| > 0 ==> r[|r| - 1] != ""
  {
    if |ps| == 0 then []
    else if ps[|ps| - 1] == "" then DropTrailingEmpty(ps[..|ps| - 1])
    else ps
  }

  /**
   * Java's `input.split(" ")`: the pieces around each space with the trailing
   * empty pieces removed; an input with no space at all (the empty string
   * included) is returned whole.
   */
  function JavaSplit(s: string): (r: seq<string>)
    ensures forall i :: 0 <= i < |r| ==> ' ' !in r[i]
    ensures |s| == 0 ==> r == [""]
    ensures |s| > 0 ==> |r| <= |Pieces(s)| && r == Pieces(s)[..|r|]
    ensures |s| > 0 ==> forall i :: |r| <= i < |Pieces(s)| ==> Pieces(s)[i] == ""
    ensures |s| > 0 && |r| > 0 ==> r[|r| - 1] != ""
  {
    if |s| == 0 then [""] else DropTrailingEmpty(Pieces(s))
  }

  /**
   * A non-empty input made only of spaces splits into no tokens at all, so
   * minCameraCover answers 0 for it.
   */
  lemma SplitOfSpaces(s: string)
    requires |s| > 0 && forall i :: 0 <= i < |s| ==> s[i] == ' '
    ensures JavaSplit(s) == []
  {
    PiecesOfSpaces(s);
  }

  /** n spaces cut into n + 1 empty pieces. */
  lemma {:induction false} PiecesOfSpaces(s: string)
    requires forall i :: 0 <= i < |s| ==> s[i] == ' '
    ensures |Pieces(s)| == |s| + 1 && forall i :: 0 <= i < |Pieces(s)| ==> Pieces(s)[i] == ""
  {
    if |s| > 0 {
      PiecesOfSpaces(s[..|s| - 1]);
    }
  }

  /**
   * `Integer.parseInt(s)`: an optional sign and at least one decimal digit,
   * whose value fits in 32 bits; anything else raises NumberFormatException
   * (None here).
   */
  function ParseInt(s: string): (r: Option<int>)
    ensures r.Some? ==> IntMin <= r.value <= IntMax
    ensures r.Some? ==> |s| >= 1 && (IsDigit(s[0]) || s[0] == '-' || s[0] == '+')
  {
    if |s| == 0 then None
    else
      var digits := if s[0] == '-' || s[0] == '+' then s[1..] else s;
      if |digits| == 0 || !AllDigits(digits) then None
      else
        var magnitude: int := Value(digits);
        var v := if s[0] == '-' then -magnitude else magnitude;
        if IntMin <= v <= IntMax then Some(v) else None
  }

  /** parseInt reads back every 32-bit value from its text. */
  lemma ParseIntText(n: int)
    requires IntMin <= n <= IntMax
    ensures ParseInt(IntText(n)) == Some(n)
  {
    var s := IntText(n);
    if n < 0 {
      var t := Show(-n);
      ValueOfShow(-n);
      assert s == "-" + t && s[0] == '-' && s[1..] == t;
      assert Value(t) == -n;
    } else {
      ValueOfShow(n);
      assert s == Show(n) && IsDigit(s[0]);
    }
  }

  // ---------------------------------------------------------------------
  // TreeNode and buildTree
  // ---------------------------------------------------------------------

  /** A binary tree; `Nil` is Java's null child. */
  datatype Tree<T> = Nil | Node(val: T, left: Tree<T>, right: Tree<T>)

  function Size<T>(t: Tree<T>): nat
  {
    match t
    case Nil => 0
    case Node(_, l, r) => 1 + Size(l) + Size(r)
  }

  /**
   * The TreeNode objects buildTree allocates, numbered in allocation order:
   * node k holds vals[k], and its left and right fields hold node numbers,
   * -1 standing for null.
   */
  datatype Arena = Arena(vals: seq<int>, lefts: seq<int>, rights: seq<int>)

  predicate ChildOk(a: Arena, j: int, c: int)
  {
    c == -1 || j < c < |a.vals|
  }

  /** Every child field is null or names a node allocated after its parent. */
  predicate WellFormed(a: Arena)
  {
    && |a.vals| >= 1 && |a.lefts| == |a.vals| && |a.rights| == |a.vals|
    && forall j :: 0 <= j < |a.vals| ==> ChildOk(a, j, a.lefts[j]) && ChildOk(a, j, a.rights[j])
  }

  /** The tree rooted at node j, read off the arena's fields. */
  function Assemble(a: Arena, j: nat): Tree<int>
    requires WellFormed(a) && j < |a.vals|
    decreases |a.vals| - j
  {
    Node(a.vals[j],
         if a.lefts[j] == -1 then Nil else Assemble(a, a.lefts[j]),
         if a.rights[j] == -1 then Nil else Assemble(a, a.rights[j]))
  }

  /** The number of tokens other than "N" among the first t. */
  function Count(ts: seq<string>, t: nat): nat
    requires t <= |ts|
    ensures Count(ts, t) <= t
  {
    if t == 0 then 0 else Count(ts, t - 1) + (if ts[t - 1] != "N" then 1 else 0)
  }

  lemma {:induction false} CountMono(ts: seq<string>, a: nat, b: nat)
    requires a <= b <= |ts|
    ensures Count(ts, a) <= Count(ts, b)
    decreases b - a
  {
    if a < b {
      CountMono(ts, a, b - 1);
    }
  }

  /** The node created from token t, or -1 when that token leaves its child null. */
  function Slot(ts: seq<string>, t: nat): int
  {
    if t < |ts| && ts[t] != "N" then Count(ts, t) else -1
  }

  /** How many tokens a queue loop that has dequeued n nodes has looked at. */
  function Window(ts: seq<string>, n: nat): nat
  {
    if 2 * n + 1 < |ts| then 2 * n + 1 else |ts|
  }

  /** Node j exists before the tokens it consumes are read. */
  predicate Alive(ts: seq<string>, j: nat)
  {
    j < Count(ts, Window(ts, j))
  }

  /** Node j was dequeued with its left token still in range. */
  predicate Dequeued(ts: seq<string>, j: nat)
  {
    2 * j + 1 < |ts| && j < Count(ts, 2 * j + 1)
  }

  /** The loop reaches token t: every node whose tokens come before t was dequeued. */
  ghost predicate Reached(ts: seq<string>, t: nat)
  {
    forall j :: 0 <= j && 2 * j < t ==> Dequeued(ts, j)
  }

  /** Every token before `upto` that is not "N" parses, and its node holds the value read. */
  ghost predicate ValsRead(ts: seq<string>, vals: seq<int>, upto: nat)
  {
    upto <= |ts| && forall t :: 0 <= t < upto ==> TokenRead(ts, vals, t)
  }

  /** Token t is "N", or it parses and the node it created holds its value. */
  ghost predicate TokenRead(ts: seq<string>, vals: seq<int>, t: nat)
    requires t < |ts|
  {
    ts[t] != "N" ==>
      ParseInt(ts[t]).Some? && Count(ts, t) < |vals| && vals[Count(ts, t)] == ParseInt(ts[t]).value
  }

  lemma ParsedBefore(ts: seq<string>, vals: seq<int>, upto: nat)
    requires ValsRead(ts, vals, upto)
    ensures forall u :: 0 <= u < upto && ts[u] != "N" ==> ParseInt(ts[u]).Some?
  {
    forall u | 0 <= u < upto && ts[u] != "N"
      ensures ParseInt(ts[u]).Some?
    {
      assert TokenRead(ts, vals, u);
    }
  }

  /** The first `done` nodes have the children their two tokens give them. */
  ghost predicate LinksRead(ts: seq<string>, lefts: seq<int>, rights: seq<int>, done: nat)
  {
    && done <= |lefts| && done <= |rights|
    && forall j :: 0 <= j < done ==> lefts[j] == Slot(ts, 2 * j + 1) && rights[j] == Slot(ts, 2 * j + 2)
  }

  /**
   * The level-order reading of the tokens. Node j takes token 2j+1 as its
   * left child and 2j+2 as its right one, an "N" or a missing token leaving
   * the child null; nodes are numbered in the order their tokens appear; the
   * tokens read are the first 2n+1 (fewer if the input is shorter), where the
   * queue runs dry after n nodes, and each token read that is not "N" gives
   * its node the value parseInt reads from it.
   */
  ghost predicate IsLevelOrder(ts: seq<string>, a: Arena)
  {
    var n := |a.vals|;
    && n >= 1 && |a.lefts| == n && |a.rights| == n
    && n == Count(ts, Window(ts, n))
    && (forall j :: 0 <= j < n ==> Alive(ts, j))
    && LinksRead(ts, a.lefts, a.rights, n)
    && ValsRead(ts, a.vals, Window(ts, n))
  }

  lemma ChildrenOk(ts: seq<string>, a: Arena, j: nat)
    requires |a.lefts| == |a.vals| && |a.rights| == |a.vals| && j < |a.vals|
    requires |a.vals| == Count(ts, Window(ts, |a.vals|))
    requires Alive(ts, j)
    requires a.lefts[j] == Slot(ts, 2 * j + 1) && a.rights[j] == Slot(ts, 2 * j + 2)
    ensures ChildOk(a, j, a.lefts[j]) && ChildOk(a, j, a.rights[j])
  {
    var w := Window(ts, |a.vals|);
    if 2 * j + 1 < |ts| {
      assert Window(ts, j) == 2 * j + 1;
      if 2 * j + 2 <= w {
        CountMono(ts, 2 * j + 2, w);
      }
      if 2 * j + 2 < |ts| {
        CountMono(ts, 2 * j + 3, w);
      }
    }
  }

  /** Children of a level-order arena are allocated after their parents. */
  lemma LevelOrderWellFormed(ts: seq<string>, a: Arena)
    requires IsLevelOrder(ts, a)
    ensures WellFormed(a)
  {
    forall j | 0 <= j < |a.vals|
      ensures ChildOk(a, j, a.lefts[j]) && ChildOk(a, j, a.rights[j])
    {
      ChildrenOk(ts, a, j);
    }
  }

  /** The outcome of buildTree. */
  datatype Built = NullRoot | Built(arena: Arena) | BadToken(at: nat)

  /** Reading a token that is not "N" allocates the next node. */
  lemma ReadToken(ts: seq<string>, vals: seq<int>, t: nat, v: int)
    requires ValsRead(ts, vals, t) && |vals| == Count(ts, t)
    requires t < |ts| && ts[t] != "N" && ParseInt(ts[t]) == Some(v)
    ensures ValsRead(ts, vals + [v], t + 1) && |vals| + 1 == Count(ts, t + 1)
  {
    var vals' := vals + [v];
    forall u | 0 <= u < t + 1
      ensures TokenRead(ts, vals', u)
    {
      if u < t {
        assert TokenRead(ts, vals, u);
      }
    }
  }

  /**
   * One child token (`if (!nodes[index].equals("N"))`): parse it and
   * allocate the next node, or leave the child null. `ok` is false when
   * parseInt raises.
   */
  method ReadChild(ts: seq<string>, t: nat, vals: seq<int>) returns (ok: bool, child: int, vals': seq<int>)
    requires ValsRead(ts, vals, t) && |vals| == Count(ts, t) && t < |ts|
    ensures ok <==> ts[t] == "N" || ParseInt(ts[t]).Some?
    ensures ok ==> ValsRead(ts, vals', t + 1) && |vals'| == Count(ts, t + 1) && child == Slot(ts, t)
    ensures ok ==> |vals| <= |vals'| <= |vals| + 1 && vals'[..|vals|] == vals
    ensures ok ==> (child == -1 <==> |vals'| == |vals|) && (child != -1 ==> child == |vals|)
  {
    if ts[t] == "N" {
      return true, -1, vals;
    }
    var v := ParseInt(ts[t]);
    if v.None? {
      return false, -1, vals;
    }
    ReadToken(ts, vals, t, v.value);
    return true, |vals|, vals + [v.value];
  }

  lemma ReachedNext(ts: seq<string>, done: nat)
    requires Reached(ts, 2 * done) && Dequeued(ts, done)
    ensures Reached(ts, 2 * done + 2)
  {
    forall j | 0 <= j && 2 * j < 2 * done + 2
      ensures Dequeued(ts, j)
    {
      if j < done {
        assert 2 * j < 2 * done;
      }
    }
  }

  lemma LinksNext(ts: seq<string>, lefts: seq<int>, rights: seq<int>, done: nat, left: int, right: int, added: nat)
    requires LinksRead(ts, lefts, rights, done) && done < |lefts| && done < |rights|
    requires left == Slot(ts, 2 * done + 1) && right == Slot(ts, 2 * done + 2)
    ensures LinksRead(ts, lefts[done := left] + Nulls(added), rights[done := right] + Nulls(added), done + 1)
  {
  }

  /** After the queue loop: the arena it built is the level-order reading. */
  lemma LoopExit(ts: seq<string>, a: Arena, done: nat, index: nat)
    requires 1 <= |a.vals| && |a.lefts| == |a.vals| && |a.rights| == |a.vals|
    requires done <= |a.vals| && index == 2 * done + 1
    requires done == |a.vals| || index >= |ts|
    requires |a.vals| == Count(ts, Min(index, |ts|))
    requires Reached(ts, 2 * done)
    requires LinksRead(ts, a.lefts, a.rights, done)
    requires forall j :: done <= j < |a.vals| ==> a.lefts[j] == -1 && a.rights[j] == -1
    requires ValsRead(ts, a.vals, Min(index, |ts|))
    ensures IsLevelOrder(ts, a)
  {
    var n := |a.vals|;
    assert Window(ts, n) == Min(index, |ts|);
    forall j | 0 <= j < n
      ensures Alive(ts, j)
    {
      if j < done {
        assert 2 * j < 2 * done;
        assert Dequeued(ts, j);
      } else {
        CountMono(ts, Min(index, |ts|), Window(ts, j));
      }
    }
  }

  /** What stays true of buildTree's variables each time the queue loop tests its condition. */
  ghost predicate LoopInv(ts: seq<string>, vals: seq<int>, lefts: seq<int>, rights: seq<int>, queue: seq<int>, done: nat, index: nat)
  {
    && 1 <= |vals| && |lefts| == |vals| && |rights| == |vals|
    && done <= |vals| && index == 2 * done + 1
    && |queue| == |vals| - done && (forall i :: 0 <= i < |queue| ==> queue[i] == done + i)
    && |vals| == Count(ts, Min(index, |ts|))
    && Reached(ts, 2 * done)
    && LinksRead(ts, lefts, rights, done)
    && (forall j :: done <= j < |vals| ==> lefts[j] == -1 && rights[j] == -1)
    && ValsRead(ts, vals, Min(index, |ts|))
  }

  /** n null child fields, for freshly allocated nodes. */
  function Nulls(n: nat): (r: seq<int>)
    ensures |r| == n && forall i :: 0 <= i < n ==> r[i] == -1
  {
    if n == 0 then [] else Nulls(n - 1) + [-1]
  }

  /** The queue loop's invariant survives one turn. */
  lemma VisitNext(ts: seq<string>, vals: seq<int>, lefts: seq<int>, rights: seq<int>, queue: seq<int>, done: nat, index: nat,
                  current: int, left: int, right: int, vals2: seq<int>)
    requires LoopInv(ts, vals, lefts, rights, queue, done, index) && |queue| > 0 && index < |ts| && current == done
    requires Dequeued(ts, done)
    requires left == Slot(ts, index) && right == Slot(ts, index + 1)
    requires |vals| <= |vals2| && |vals2| == Count(ts, Min(index + 2, |ts|)) && ValsRead(ts, vals2, Min(index + 2, |ts|))
    ensures var added := |vals2| - |vals|;
      LoopInv(ts, vals2, lefts[current := left] + Nulls(added), rights[current := right] + Nulls(added),
              queue[1..] + Range(|vals|, |vals| + added), done + 1, index + 2)
  {
    var added := |vals2| - |vals|;
    ReachedNext(ts, done);
    LinksNext(ts, lefts, rights, done, left, right, added);
    var queue' := queue[1..] + Range(|vals|, |vals| + added);
    assert forall i :: 0 <= i < |queue'| ==> queue'[i] == done + 1 + i;
  }

  /**
   * One turn of the queue loop: poll node `done`, then read its left token
   * and, when one is left, its right token. `bad` is the position of a
   * token parseInt raises on.
   */
  method Visit(ts: seq<string>, vals: seq<int>, lefts: seq<int>, rights: seq<int>, queue: seq<int>, ghost done: nat, index: nat)
    returns (bad: Option<nat>, vals': seq<int>, lefts': seq<int>, rights': seq<int>, queue': seq<int>, index': nat)
    requires LoopInv(ts, vals, lefts, rights, queue, done, index) && |queue| > 0 && index < |ts|
    ensures bad.None? ==> LoopInv(ts, vals', lefts', rights', queue', done + 1, index') && index' == index + 2
    ensures bad.Some? ==>
      && bad.value < |ts| && ts[bad.value] != "N" && ParseInt(ts[bad.value]).None?
      && Reached(ts, bad.value)
      && forall u :: 0 <= u < bad.value && ts[u] != "N" ==> ParseInt(ts[u]).Some?
  {
    var current := queue[0];
    queue' := queue[1..];
    assert Dequeued(ts, current);
    ReachedNext(ts, done);
    vals', lefts', rights', index' := vals, lefts, rights, index;
    var left, right, vals2;
    bad, left, right, vals2 := ReadPair(ts, index, vals);
    if bad.Some? {
      return;
    }
    var added := |vals2| - |vals|;
    VisitNext(ts, vals, lefts, rights, queue, done, index, current, left, right, vals2);
    lefts' := lefts[current := left] + Nulls(added);
    rights' := rights[current := right] + Nulls(added);
    queue' := queue' + Range(|vals|, |vals| + added);
    vals' := vals2;
    index' := index + 2;
  }

  /**
   * The left token at `index` and, when one is left, the right token after
   * it. `bad` is the position of a token parseInt raises on.
   */
  method ReadPair(ts: seq<string>, index: nat, vals: seq<int>) returns (bad: Option<nat>, left: int, right: int, vals2: seq<int>)
    requires ValsRead(ts, vals, index) && |vals| == Count(ts, index) && index < |ts|
    ensures bad.None? ==>
      && left == Slot(ts, index) && right == Slot(ts, index + 1)
      && |vals| <= |vals2| && |vals2| == Count(ts, Min(index + 2, |ts|)) && ValsRead(ts, vals2, Min(index + 2, |ts|))
    ensures bad.Some? ==>
      && index <= bad.value <= index + 1 && bad.value < |ts| && ts[bad.value] != "N" && ParseInt(ts[bad.value]).None?
      && forall u :: 0 <= u < bad.value && ts[u] != "N" ==> ParseInt(ts[u]).Some?
  {
    var ok, vals1;
    ok, left, vals1 := ReadChild(ts, index, vals);
    if !ok {
      ParsedBefore(ts, vals, index);
      return Some(index), -1, -1, vals;
    }
    right, vals2 := -1, vals1;
    if index + 1 < |ts| {
      ok, right, vals2 := ReadChild(ts, index + 1, vals1);
      if !ok {
        ParsedBefore(ts, vals1, index + 1);
        return Some(index + 1), -1, -1, vals;
      }
    }
    bad := None;
  }

  /**
   * buildTree: a null root for no tokens or a leading "N"; otherwise the
   * queue loop, where each dequeued node consumes two tokens (left, then
   * right) until the queue empties or the tokens run out. parseInt raising
   * on a token it reads is BadToken at that token's position.
   */
  method BuildTree(ts: seq<string>) returns (r: Built)
    ensures r.NullRoot? <==> |ts| == 0 || ts[0] == "N"
    ensures r.Built? ==> IsLevelOrder(ts, r.arena)
    ensures r.BadToken? ==>
      && r.at < |ts| && ts[r.at] != "N" && ParseInt(ts[r.at]).None?
      && Reached(ts, r.at)
      && forall u :: 0 <= u < r.at && ts[u] != "N" ==> ParseInt(ts[u]).Some?
  {
    if |ts| == 0 || ts[0] == "N" {
      return NullRoot;
    }
    var v0 := ParseInt(ts[0]);
    if v0.None? {
      return BadToken(0);
    }
    ReadToken(ts, [], 0, v0.value);
    var vals, lefts, rights := [v0.value], [-1], [-1];
    var queue: seq<int> := [0];
    var index := 1;
    ghost var done := 0;
    while |queue| > 0 && index < |ts|
      invariant LoopInv(ts, vals, lefts, rights, queue, done, index)
      decreases |ts| - index
    {
      var bad;
      bad, vals, lefts, rights, queue, index := Visit(ts, vals, lefts, rights, queue, done, index);
      if bad.Some? {
        return BadToken(bad.value);
      }
      done := done + 1;
    }
    LoopExit(ts, Arena(vals, lefts, rights), done, index);
    return Built(Arena(vals, lefts, rights));
  }

  // ---------------------------------------------------------------------
  // dfs: the three-state dynamic programme
  // ---------------------------------------------------------------------

  /** The cost dfs gives an absent camera: more than any tree in range needs. */
  const Impossible: int := 3001

  /**
   * dfs's result for a subtree: s0 with no camera at its root and every node
   * below the root watched, s1 with no camera at the root and everything,
   * the root included, watched from inside the subtree, s2 with a camera at
   * the root.
   */
  datatype States = States(s0: int, s1: int, s2: int)

  function At(r: States, k: nat): int
    requires k < 3
  {
    if k == 0 then r.s0 else if k == 1 then r.s1 else r.s2
  }

  function Dfs<T>(t: Tree<T>): (r: States)
    ensures 0 <= r.s0 && 0 <= r.s1 && 0 <= r.s2
    ensures t.Nil? ==> r == States(0, 0, Impossible)
    ensures t.Node? ==> 1 <= r.s1 && 1 <= r.s2 <= Size(t) && r.s0 < Size(t)
    ensures r.s0 <= Size(t) && r.s1 <= Impossible + Size(t) && r.s2 <= Impossible + Size(t)
  {
    match t
    case Nil => States(0, 0, Impossible)
    case Node(_, l, r) => Combine(Dfs(l), Dfs(r))
  }

  /** dfs's step at a node, from its children's states. */
  function Combine(left: States, right: States): States
  {
    var state0 := Min(left.s1, left.s2) + Min(right.s1, right.s2);
    var option1 := left.s2 + Min(right.s1, right.s2);
    var option2 := right.s2 + Min(left.s1, left.s2);
    var option3 := left.s2 + right.s2;
    var state1 := Min(Min(option1, option2), option3);
    var leftMin := Min(left.s0, Min(left.s1, left.s2));
    var rightMin := Min(right.s0, Min(right.s1, right.s2));
    var state2 := 1 + leftMin + rightMin;
    States(state0, state1, state2)
  }

  /**
   * With the children's states non-negative, no camera at a node is
   * watched from below through the cheaper of its two children with a
   * camera: a camera on both never costs less.
   */
  lemma CombineWatched(left: States, right: States)
    requires 0 <= left.s1 && 0 <= left.s2 && 0 <= right.s1 && 0 <= right.s2
    ensures Combine(left, right).s1 == Min(left.s2 + Min(right.s1, right.s2), right.s2 + Min(left.s1, left.s2))
  {
  }

  /** minCameraCover's answer for a tree built from the tokens. */
  function CoverCost<T>(t: Tree<T>): (c: int)
    ensures t.Node? ==> 1 <= c <= Size(t)
    ensures t.Nil? ==> c == 0
  {
    Min(Dfs(t).s1, Dfs(t).s2)
  }

  // ---------------------------------------------------------------------
  // Camera placements: what the three states mean
  // ---------------------------------------------------------------------

  /** p has the shape of t; p's labels say where the cameras are. */
  predicate Fits<T>(t: Tree<T>, p: Tree<bool>)
  {
    match t
    case Nil => p.Nil?
    case Node(_, l, r) => p.Node? && Fits(l, p.left) && Fits(r, p.right)
  }

  function Cost(p: Tree<bool>): nat
  {
    match p
    case Nil => 0
    case Node(c, l, r) => (if c then 1 else 0) + Cost(l) + Cost(r)
  }

  predicate HasCam(p: Tree<bool>) { p.Node? && p.val }

  /**
   * Every node of p is watched: it has a camera, or its parent has one
   * (parentCam for p's root), or one of its children has one.
   */
  predicate Watched(p: Tree<bool>, parentCam: bool)
  {
    match p
    case Nil => true
    case Node(c, l, r) =>
      (c || parentCam || HasCam(l) || HasCam(r)) && Watched(l, c) && Watched(r, c)
  }

  /** The placements each of dfs's states minimises over. */
  predicate InState(p: Tree<bool>, k: nat)
  {
    if k == 0 then p.Nil? || (!p.val && Watched(p.left, false) && Watched(p.right, false))
    else if k == 1 then p.Nil? || (!p.val && Watched(p, false))
    else p.Node? && p.val && Watched(p.left, true) && Watched(p.right, true)
  }

  /** Every placement in state k costs at least dfs's value for k. */
  lemma {:induction false} DfsIsLower<T>(t: Tree<T>, p: Tree<bool>, k: nat)
    requires k < 3 && Fits(t, p) && InState(p, k)
    ensures At(Dfs(t), k) <= Cost(p)
    decreases p, 1
  {
    if t.Node? {
      if k == 0 {
        NoCameraLower(t, p);
      } else if k == 1 {
        WatchedFromBelowLower(t, p);
      } else {
        CameraLower(t, p);
      }
    }
  }

  lemma {:induction false} NoCameraLower<T>(t: Tree<T>, p: Tree<bool>)
    requires t.Node? && Fits(t, p) && InState(p, 0)
    ensures Dfs(t).s0 <= Cost(p)
    decreases p, 0
  {
    FullLower(t.left, p.left);
    FullLower(t.right, p.right);
  }

  lemma {:induction false} WatchedFromBelowLower<T>(t: Tree<T>, p: Tree<bool>)
    requires t.Node? && Fits(t, p) && InState(p, 1)
    ensures Dfs(t).s1 <= Cost(p)
    decreases p, 0
  {
    var l, r := p.left, p.right;
    CombineWatched(Dfs(t.left), Dfs(t.right));
    FullLower(t.left, l);
    FullLower(t.right, r);
    if HasCam(l) {
      DfsIsLower(t.left, l, 2);
    } else {
      DfsIsLower(t.right, r, 2);
    }
  }

  lemma {:induction false} CameraLower<T>(t: Tree<T>, p: Tree<bool>)
    requires t.Node? && Fits(t, p) && InState(p, 2)
    ensures Dfs(t).s2 <= Cost(p)
    decreases p, 0
  {
    HalfLower(t.left, p.left);
    HalfLower(t.right, p.right);
  }

  /** A subtree watched from inside costs at least min(s1, s2). */
  lemma {:induction false} FullLower<T>(t: Tree<T>, p: Tree<bool>)
    requires Fits(t, p) && Watched(p, false)
    ensures Min(Dfs(t).s1, Dfs(t).s2) <= Cost(p)
    decreases p, 2
  {
    if p.Node? {
      if p.val {
        DfsIsLower(t, p, 2);
      } else {
        DfsIsLower(t, p, 1);
      }
    }
  }

  /** A subtree whose parent has a camera costs at least min(s0, s1, s2). */
  lemma {:induction false} HalfLower<T>(t: Tree<T>, p: Tree<bool>)
    requires Fits(t, p) && Watched(p, true)
    ensures Min(Dfs(t).s0, Min(Dfs(t).s1, Dfs(t).s2)) <= Cost(p)
    decreases p, 2
  {
    if p.Node? {
      if p.val {
        DfsIsLower(t, p, 2);
      } else {
        DfsIsLower(t, p, 0);
      }
    }
  }

  /** Every value of dfs below Impossible is the cost of a placement in that state. */
  lemma {:induction false} DfsIsAchieved<T>(t: Tree<T>, k: nat) returns (p: Tree<bool>)
    requires k < 3 && At(Dfs(t), k) < Impossible
    ensures Fits(t, p) && InState(p, k) && Cost(p) == At(Dfs(t), k)
    decreases t, 2
  {
    if t.Nil? {
      p := Nil;
    } else if k == 0 {
      p := AchieveNoCamera(t);
    } else if k == 1 {
      p := AchieveWatchedFromBelow(t);
    } else {
      p := AchieveCamera(t);
    }
  }

  lemma {:induction false} AchieveNoCamera<T>(t: Tree<T>) returns (p: Tree<bool>)
    requires t.Node? && Dfs(t).s0 < Impossible
    ensures Fits(t, p) && InState(p, 0) && Cost(p) == Dfs(t).s0
    decreases t, 1
  {
    var pl := FullWitness(t.left);
    var pr := FullWitness(t.right);
    p := Node(false, pl, pr);
  }

  lemma {:induction false} AchieveWatchedFromBelow<T>(t: Tree<T>) returns (p: Tree<bool>)
    requires t.Node? && Dfs(t).s1 < Impossible
    ensures Fits(t, p) && InState(p, 1) && Cost(p) == Dfs(t).s1
    decreases t, 1
  {
    var left, right := Dfs(t.left), Dfs(t.right);
    CombineWatched(left, right);
    if left.s2 + Min(right.s1, right.s2) <= right.s2 + Min(left.s1, left.s2) {
      var pl := DfsIsAchieved(t.left, 2);
      var pr := FullWitness(t.right);
      CameraWatched(pl);
      p := Node(false, pl, pr);
    } else {
      var pl := FullWitness(t.left);
      var pr := DfsIsAchieved(t.right, 2);
      CameraWatched(pr);
      p := Node(false, pl, pr);
    }
  }

  /** A placement with a camera at its root in state 2 is watched whatever its parent has. */
  lemma CameraWatched(p: Tree<bool>)
    requires InState(p, 2)
    ensures HasCam(p) && Watched(p, false)
  {
  }

  lemma {:induction false} AchieveCamera<T>(t: Tree<T>) returns (p: Tree<bool>)
    requires t.Node? && Dfs(t).s2 < Impossible
    ensures Fits(t, p) && InState(p, 2) && Cost(p) == Dfs(t).s2
    decreases t, 1
  {
    var pl := HalfWitness(t.left);
    var pr := HalfWitness(t.right);
    p := Node(true, pl, pr);
  }

  lemma {:induction false} FullWitness<T>(t: Tree<T>) returns (p: Tree<bool>)
    requires Min(Dfs(t).s1, Dfs(t).s2) < Impossible
    ensures Fits(t, p) && Watched(p, false) && Cost(p) == Min(Dfs(t).s1, Dfs(t).s2)
    decreases t, 3
  {
    if Dfs(t).s1 <= Dfs(t).s2 {
      p := DfsIsAchieved(t, 1);
    } else {
      p := DfsIsAchieved(t, 2);
    }
  }

  lemma {:induction false} HalfWitness<T>(t: Tree<T>) returns (p: Tree<bool>)
    requires Min(Dfs(t).s0, Min(Dfs(t).s1, Dfs(t).s2)) < Impossible
    ensures Fits(t, p) && Watched(p, true) && Cost(p) == Min(Dfs(t).s0, Min(Dfs(t).s1, Dfs(t).s2))
    decreases t, 3
  {
    if Dfs(t).s0 <= Min(Dfs(t).s1, Dfs(t).s2) {
      p := DfsIsAchieved(t, 0);
    } else if Dfs(t).s1 <= Dfs(t).s2 {
      p := DfsIsAchieved(t, 1);
    } else {
      p := DfsIsAchieved(t, 2);
    }
  }

  /** No placement that watches every node uses fewer cameras than minCameraCover's answer. */
  lemma CoverCostIsLower<T>(t: Tree<T>, p: Tree<bool>)
    requires Fits(t, p) && Watched(p, false)
    ensures CoverCost(t) <= Cost(p)
  {
    FullLower(t, p);
  }

  /** For a tree of fewer than 3001 nodes some placement watching every node uses exactly that many. */
  lemma CoverCostIsAchieved<T>(t: Tree<T>) returns (p: Tree<bool>)
    requires Size(t) < Impossible
    ensures Fits(t, p) && Watched(p, false) && Cost(p) == CoverCost(t)
  {
    p := FullWitness(t);
  }

  // ---------------------------------------------------------------------
  // minCameraCover
  // ---------------------------------------------------------------------

  /** The NumberFormatException parseInt raises on the token at position `at`. */
  datatype NumberFormat = NumberFormat(token: string, at: nat)

  /**
   * minCameraCover(input): 0 for no tokens or a leading "N"; otherwise the
   * tree buildTree reads from the tokens, and min(state1, state2) of its
   * root. The ghost outputs are that arena and its tree.
   */
  method MinCameraCover(input: string) returns (r: Result<int, NumberFormat>, ghost a: Arena, ghost root: Tree<int>)
    ensures var ts := JavaSplit(input);
      && ((|ts| == 0 || ts[0] == "N") <==> r == Ok(0))
      && (r.Ok? && r.value != 0 ==>
            IsLevelOrder(ts, a) && WellFormed(a) && root == Assemble(a, 0)
            && r.value == CoverCost(root) && 1 <= r.value <= Size(root))
      && (r.Err? ==>
            var e := r.error;
            e.at < |ts| && e.token == ts[e.at] && e.token != "N" && ParseInt(e.token).None? && Reached(ts, e.at))
  {
    var ts := JavaSplit(input);
    a, root := Arena([0], [-1], [-1]), Nil;
    if |ts| == 0 || ts[0] == "N" {
      return Ok(0), a, root;
    }
    var built := BuildTree(ts);
    match built
    case BadToken(at) =>
      r := Err(NumberFormat(ts[at], at));
    case Built(arena) =>
      LevelOrderWellFormed(ts, arena);
      var tree := Assemble(arena, 0);
      var res := Dfs(tree);
      r := Ok(Min(res.s1, res.s2));
      a, root := arena, tree;
  }

  /** The empty input is one empty token, which parseInt rejects. */
  lemma EmptyInputRaises()
    ensures JavaSplit("") == [""] && ParseInt("").None? && Reached([""], 0)
  {
  }
}
