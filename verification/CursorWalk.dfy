/**
 * The stackless syntax-tree walk: a cursor moved by first-child, next-sibling and parent steps
 * visits the tree in preorder, and its depth counter measures the tree's height.
 */
module CursorWalk {
  import opened Words

  datatype Tree = Node(isError: bool, isMissing: bool, kind: string, start: nat, end: nat, children: seq<Tree>)

  /** The facts the visitor is handed, detached from the cursor. */
  datatype Found = Found(isError: bool, isMissing: bool, kind: string, start: nat, end: nat)

  /** One visit, with the depth the walk had counted when it happened. */
  datatype Visit = Visit(found: Found, depth: nat)

  function Facts(t: Tree): Found { Found(t.isError, t.isMissing, t.kind, t.start, t.end) }

  // ---------------------------------------------------------------- the reference definitions

  function Preorder(t: Tree, depth: nat): seq<Visit>
    decreases t
  {
    [Visit(Facts(t), depth)] + KidsFrom(t, 0, depth)
  }

  /** The preorder of the children of `t` from index `from` on. */
  function KidsFrom(t: Tree, from: nat, depth: nat): seq<Visit>
    requires from <= |t.children|
    decreases t, |t.children| - from
  {
    if from == |t.children| then [] else Preorder(t.children[from], depth + 1) + KidsFrom(t, from + 1, depth)
  }

  function Height(t: Tree): nat
    decreases t
  {
    1 + KidsHeight(t, 0)
  }

  function KidsHeight(t: Tree, from: nat): nat
    requires from <= |t.children|
    decreases t, |t.children| - from
  {
    if from == |t.children| then 0 else Max(Height(t.children[from]), KidsHeight(t, from + 1))
  }

  function Peak(visits: seq<Visit>): nat
  {
    if visits == [] then 0 else Max(Peak(visits[..|visits| - 1]), visits[|visits| - 1].depth + 1)
  }

  lemma {:induction false} PeakConcat(a: seq<Visit>, b: seq<Visit>)
    ensures Peak(a + b) == Max(Peak(a), Peak(b))
  {
    if b == [] {
      assert a + b == a;
    } else {
      PeakConcat(a, b[..|b| - 1]);
      assert (a + b)[..|a + b| - 1] == a + b[..|b| - 1];
    }
  }

  lemma {:induction false} PeakIsHeight(t: Tree, depth: nat)
    ensures Peak(Preorder(t, depth)) == depth + Height(t)
    decreases t
  {
    KidsPeak(t, 0, depth);
    PeakConcat([Visit(Facts(t), depth)], KidsFrom(t, 0, depth));
    assert [Visit(Facts(t), depth)][..0] == [];
  }

  lemma {:induction false} KidsPeak(t: Tree, from: nat, depth: nat)
    requires from <= |t.children|
    ensures Peak(KidsFrom(t, from, depth)) == if from == |t.children| then 0 else depth + 1 + KidsHeight(t, from)
    decreases t, |t.children| - from
  {
    if from < |t.children| {
      PeakIsHeight(t.children[from], depth + 1);
      KidsPeak(t, from + 1, depth);
      PeakConcat(Preorder(t.children[from], depth + 1), KidsFrom(t, from + 1, depth));
    }
  }

  // ---------------------------------------------------------------- cursor positions

  predicate OnTree(t: Tree, path: seq<nat>)
  {
    path != [] ==> path[0] < |t.children| && OnTree(t.children[path[0]], path[1..])
  }

  function At(t: Tree, path: seq<nat>): Tree
    requires OnTree(t, path)
  {
    if path == [] then t else At(t.children[path[0]], path[1..])
  }

  /** Everything preorder still owes once the subtree at `path` is done. */
  function After(t: Tree, path: seq<nat>, depth: nat): seq<Visit>
    requires OnTree(t, path)
  {
    if path == [] then []
    else After(t.children[path[0]], path[1..], depth + 1) + KidsFrom(t, path[0] + 1, depth)
  }

  function Up(path: seq<nat>): seq<nat>
    requires path != []
  {
    path[..|path| - 1]
  }

  function Last(path: seq<nat>): nat
    requires path != []
  {
    path[|path| - 1]
  }

  lemma {:induction false} UpOnTree(t: Tree, path: seq<nat>)
    requires path != [] && OnTree(t, path)
    ensures OnTree(t, Up(path)) && Last(path) < |At(t, Up(path)).children|
    ensures At(t, path) == At(t, Up(path)).children[Last(path)]
  {
    if |path| > 1 {
      UpOnTree(t.children[path[0]], path[1..]);
      assert Up(path)[1..] == Up(path[1..]);
    }
  }

  lemma {:induction false} DownOnTree(t: Tree, path: seq<nat>, k: nat)
    requires OnTree(t, path) && k < |At(t, path).children|
    ensures OnTree(t, path + [k]) && At(t, path + [k]) == At(t, path).children[k]
  {
    if path == [] {
      assert (path + [k])[1..] == [];
    } else {
      DownOnTree(t.children[path[0]], path[1..], k);
      assert (path + [k])[1..] == path[1..] + [k];
    }
  }

  /** Below a position, what is owed is the later siblings and then whatever the parent owes. */
  lemma {:induction false} AfterChild(t: Tree, path: seq<nat>, k: nat, depth: nat)
    requires OnTree(t, path) && k < |At(t, path).children|
    requires OnTree(t, path + [k])
    ensures After(t, path + [k], depth) == KidsFrom(At(t, path), k + 1, depth + |path|) + After(t, path, depth)
  {
    hide KidsFrom;
    if path == [] {
      assert (path + [k])[1..] == [];
    } else {
      DownOnTree(t.children[path[0]], path[1..], k);
      AfterChild(t.children[path[0]], path[1..], k, depth + 1);
      assert (path + [k])[1..] == path[1..] + [k];
    }
  }

  // ---------------------------------------------------------------- the cursor

  /** The cursor's contract: it never leaves the node it was opened on. */
  class TreeCursor {
    const root: Tree
    var path: seq<nat>

    constructor (root: Tree)
      ensures this.root == root && path == []
    {
      this.root := root;
      path := [];
    }

    predicate Valid()
      reads this
    {
      OnTree(root, path)
    }

    method GotoFirstChild() returns (moved: bool)
      requires Valid()
      modifies this
      ensures Valid()
      ensures moved == (|At(root, old(path)).children| > 0)
      ensures path == if moved then old(path) + [0] else old(path)
    {
      moved := |At(root, path).children| > 0;
      if moved {
        DownOnTree(root, path, 0);
        path := path + [0];
      }
    }

    method GotoNextSibling() returns (moved: bool)
      requires Valid()
      modifies this
      ensures Valid()
      ensures moved == (old(path) != [] && OnTree(root, Up(old(path))) &&
                        Last(old(path)) + 1 < |At(root, Up(old(path))).children|)
      ensures path == if moved then Up(old(path)) + [Last(old(path)) + 1] else old(path)
    {
      if path == [] {
        return false;
      }
      UpOnTree(root, path);
      moved := Last(path) + 1 < |At(root, Up(path)).children|;
      if moved {
        DownOnTree(root, Up(path), Last(path) + 1);
        path := Up(path) + [Last(path) + 1];
      }
    }

    method GotoParent() returns (moved: bool)
      requires Valid()
      modifies this
      ensures Valid()
      ensures moved == (old(path) != [])
      ensures path == if moved then Up(old(path)) else old(path)
    {
      moved := path != [];
      if moved {
        UpOnTree(root, path);
        path := Up(path);
      }
    }
  }

  // ---------------------------------------------------------------- the walk

  /** Outer-loop invariant: the current node and everything after it are exactly what is owed. */
  ghost predicate Owes(root: Tree, path: seq<nat>, visited: seq<Visit>): (owes: bool)
    ensures owes ==> OnTree(root, path)
  {
    OnTree(root, path) && Preorder(root, 0) == visited + Preorder(At(root, path), |path|) + After(root, path, 0)
  }

  /** Inner-loop invariant: the current subtree is done. */
  ghost predicate Done(root: Tree, path: seq<nat>, visited: seq<Visit>): (done: bool)
    ensures done ==> OnTree(root, path)
  {
    OnTree(root, path) && Preorder(root, 0) == visited + After(root, path, 0)
  }

  lemma UnfoldPreorder(t: Tree, depth: nat)
    ensures t.children == [] ==> Preorder(t, depth) == [Visit(Facts(t), depth)]
    ensures t.children != [] ==>
      Preorder(t, depth) == [Visit(Facts(t), depth)] + (Preorder(t.children[0], depth + 1) + KidsFrom(t, 1, depth))
  {
  }

  lemma Regroup(done: seq<Visit>, visit: seq<Visit>, child: seq<Visit>, later: seq<Visit>, rest: seq<Visit>)
    ensures done + (visit + (child + later)) + rest == (done + visit) + child + (later + rest)
    ensures done + visit + rest == (done + visit) + rest
    ensures done + ((child + later) + rest) == done + child + (later + rest)
  {
  }

  lemma VisitIsOwed(root: Tree, path: seq<nat>, visited: seq<Visit>)
    requires Owes(root, path, visited)
    ensures |visited| < |Preorder(root, 0)|
  {
    hide After, KidsFrom, OnTree, At;
  }

  lemma StepLeaf(root: Tree, path: seq<nat>, visited: seq<Visit>)
    requires Owes(root, path, visited) && At(root, path).children == []
    ensures Done(root, path, visited + [Visit(Facts(At(root, path)), |path|)])
  {
    hide After, Preorder, KidsFrom, OnTree, At;
    UnfoldPreorder(At(root, path), |path|);
    Regroup(visited, [Visit(Facts(At(root, path)), |path|)], [], [], After(root, path, 0));
  }

  lemma StepInner(root: Tree, path: seq<nat>, visited: seq<Visit>)
    requires Owes(root, path, visited) && At(root, path).children != []
    ensures Owes(root, path + [0], visited + [Visit(Facts(At(root, path)), |path|)])
  {
    hide After, Preorder, KidsFrom, OnTree, At;
    var here, depth := At(root, path), |path|;
    UnfoldPreorder(here, depth);
    DownOnTree(root, path, 0);
    AfterChild(root, path, 0, 0);
    Regroup(visited, [Visit(Facts(here), depth)], Preorder(here.children[0], depth + 1), KidsFrom(here, 1, depth),
            After(root, path, 0));
  }

  lemma StepDown(root: Tree, path: seq<nat>, visited: seq<Visit>)
    requires Owes(root, path, visited)
    ensures var here := At(root, path);
      var now := visited + [Visit(Facts(here), |path|)];
      && |visited| < |Preorder(root, 0)|
      && (here.children == [] ==> Done(root, path, now))
      && (here.children != [] ==> Owes(root, path + [0], now))
  {
    hide Owes, Done, Preorder, At, OnTree;
    VisitIsOwed(root, path, visited);
    if At(root, path).children == [] {
      StepLeaf(root, path, visited);
    } else {
      StepInner(root, path, visited);
    }
  }

  /** With later siblings still owed, the next of them is. */
  lemma StepSibling(root: Tree, path: seq<nat>, k: nat, visited: seq<Visit>)
    requires OnTree(root, path) && k + 1 < |At(root, path).children|
    requires Preorder(root, 0) == visited + (KidsFrom(At(root, path), k + 1, |path|) + After(root, path, 0))
    ensures Owes(root, path + [k + 1], visited)
  {
    hide After, Preorder, OnTree, At;
    var parent, depth := At(root, path), |path|;
    DownOnTree(root, path, k + 1);
    AfterChild(root, path, k + 1, 0);
    Regroup(visited, [], Preorder(parent.children[k + 1], depth + 1), KidsFrom(parent, k + 2, depth), After(root, path, 0));
  }

  lemma StepAcross(root: Tree, path: seq<nat>, visited: seq<Visit>)
    requires path != [] && Done(root, path, visited)
    ensures OnTree(root, Up(path))
    ensures var parent, k := At(root, Up(path)), Last(path);
      && k < |parent.children|
      && (k + 1 < |parent.children| ==> Owes(root, Up(path) + [k + 1], visited))
      && (k + 1 == |parent.children| ==> Done(root, Up(path), visited))
  {
    hide After, Preorder, OnTree, At, Owes;
    UpOnTree(root, path);
    var parent, k := At(root, Up(path)), Last(path);
    assert path == Up(path) + [k];
    AfterChild(root, Up(path), k, 0);
    if k + 1 < |parent.children| {
      StepSibling(root, Up(path), k, visited);
    } else {
      assert KidsFrom(parent, k + 1, |Up(path)|) == [];
    }
  }

  /** Visit every node once, in preorder, retaining nothing but the cursor; `peak` is the depth it reached. */
  method Walk(root: Tree) returns (visited: seq<Visit>, peak: nat)
    ensures visited == Preorder(root, 0)
    ensures peak == Height(root)
  {
    hide Preorder, After, OnTree, At, Height;
    var cursor := new TreeCursor(root);
    var depth := 0;
    visited, peak := [], 0;
    Start(root);
    while true
      invariant cursor.root == root
      invariant Owes(root, cursor.path, visited)
      invariant depth == |cursor.path|
      invariant peak == Peak(visited)
      decreases |Preorder(root, 0)| - |visited|
    {
      StepDown(root, cursor.path, visited);
      PeakConcat(visited, [Visit(Facts(At(root, cursor.path)), depth)]);
      assert (visited + [Visit(Facts(At(root, cursor.path)), depth)])[..|visited|] == visited;
      visited := visited + [Visit(Facts(At(root, cursor.path)), depth)];
      peak := Max(peak, depth + 1);
      var moved := cursor.GotoFirstChild();
      if moved {
        depth := depth + 1;
        continue;
      }
      while true
        invariant cursor.root == root
        invariant Done(root, cursor.path, visited)
        invariant depth == |cursor.path|
        decreases |cursor.path|
      {
        if cursor.path != [] {
          StepAcross(root, cursor.path, visited);
        }
        moved := cursor.GotoNextSibling();
        if moved {
          break;
        }
        moved := cursor.GotoParent();
        if !moved {
          Finish(root, visited);
          return;
        }
        depth := if depth == 0 then 0 else depth - 1;
      }
    }
  }

  lemma Start(root: Tree)
    ensures Owes(root, [], [])
  {
  }

  lemma Finish(root: Tree, visited: seq<Visit>)
    requires Done(root, [], visited)
    ensures visited == Preorder(root, 0) && Peak(visited) == Height(root)
  {
    PeakIsHeight(root, 0);
  }
}
