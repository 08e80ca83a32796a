/** The state diff of `src/lockfile.rs`: the actions of the previous run (the
    lockfile) are compared with the actions planned now; what disappeared is
    undone, in reverse order, and what is new is applied. The lockfile is read
    by the caller and passed in as `Option<seq<SystemAction>>` (None when
    there is no lockfile). */
module Lockfile {
  import opened Wrappers
  import opened Action

  // ---------------------------------------------------------------------
  // make_difference

  /** The elements of `from` not contained in `to`, in `from`'s order and with
      their repetitions. */
  function Difference<T(==)>(from: seq<T>, to: seq<T>): seq<T>
  {
    if from == [] then []
    else Difference(from[..|from| - 1], to) + (if from[|from| - 1] in to then [] else [from[|from| - 1]])
  }

  /** `make_difference`, with the loop of the source. */
  method MakeDifference<T(==)>(from: seq<T>, to: seq<T>) returns (difference: seq<T>)
    ensures difference == Difference(from, to)
  {
    difference := [];
    for i := 0 to |from|
      invariant difference == Difference(from[..i], to)
    {
      assert from[..i + 1][..i] == from[..i];
      if from[i] !in to {
        difference := difference + [from[i]];
      }
    }
    assert from[..|from|] == from;
  }

  /** Each element keeps all its occurrences when `to` lacks it and loses them
      all otherwise. */
  lemma {:induction false} DifferenceCounts<T>(from: seq<T>, to: seq<T>)
    ensures forall x :: multiset(Difference(from, to))[x] == if x in to then 0 else multiset(from)[x]
  {
    if from != [] {
      var init, last := from[..|from| - 1], from[|from| - 1];
      DifferenceCounts(init, to);
      assert from == init + [last];
      assert multiset(from) == multiset(init) + multiset{last};
    }
  }

  /** The difference is never longer than `from`. */
  lemma {:induction false} DifferenceLength<T>(from: seq<T>, to: seq<T>)
    ensures |Difference(from, to)| <= |from|
  {
    if from != [] {
      DifferenceLength(from[..|from| - 1], to);
    }
  }

  /** Membership in both directions: an element is in the difference exactly
      when it is in `from` and not in `to`. */
  lemma DifferenceMembers<T>(from: seq<T>, to: seq<T>)
    ensures forall x :: x in Difference(from, to) <==> x in from && x !in to
  {
    DifferenceCounts(from, to);
    forall x
      ensures x in Difference(from, to) <==> x in from && x !in to
    {
      assert x in Difference(from, to) <==> x in multiset(Difference(from, to));
      assert x in from <==> x in multiset(from);
    }
  }

  /** The difference is taken piecewise: order is kept. */
  lemma {:induction false} DifferenceAppend<T>(xs: seq<T>, ys: seq<T>, to: seq<T>)
    ensures Difference(xs + ys, to) == Difference(xs, to) + Difference(ys, to)
    decreases |ys|
  {
    if ys == [] {
      assert xs + ys == xs;
    } else {
      var init, last := ys[..|ys| - 1], ys[|ys| - 1];
      DifferenceAppend(xs, init, to);
      assert (xs + ys)[..|xs + ys| - 1] == xs + init;
    }
  }

  /** A list minus itself, or minus any list holding all its elements, is empty. */
  lemma DifferenceCovered<T>(from: seq<T>, to: seq<T>)
    requires forall x :: x in from ==> x in to
    ensures Difference(from, to) == []
  {
    DifferenceMembers(from, to);
  }

  // ---------------------------------------------------------------------
  // inverse_additive_actions

  /** An action that adds something: a package install, or a file link or copy. */
  predicate IsAdditive(a: SystemAction)
  {
    (a.Package? && a.packageOp != Uninstall) || (a.File? && a.fileOp != Remove)
  }

  /** An action in removal form: a package uninstall or a file removal. */
  predicate IsRemoval(a: SystemAction)
  {
    (a.Package? && a.packageOp == Uninstall) || (a.File? && a.fileOp == Remove)
  }

  /** The filter of the source: the additive actions, in order. */
  function Additive(s: seq<SystemAction>): seq<SystemAction>
  {
    if s == [] then []
    else (if IsAdditive(s[0]) then [s[0]] else []) + Additive(s[1..])
  }

  /** The map of the source: the removal form of an additive action. The
      panic arm for Script actions cannot be reached, since the filter has
      dropped them. */
  function Inverse(a: SystemAction): (r: SystemAction)
    requires IsAdditive(a)
    ensures IsRemoval(r)
    ensures a.Package? ==> r == Package(Uninstall, a.source, a.name, a.origin)
    ensures a.File? ==> r == File(Remove, "", a.dest, a.origin)
  {
    match a
    case Package(_, source, name, origin) => Package(Uninstall, source, name, origin)
    case File(_, _, dest, origin) => File(Remove, "", dest, origin)
  }

  /** `inverse_additive_actions`: filter, map, reverse. */
  function InverseAdditiveActions(actions: seq<SystemAction>): (r: seq<SystemAction>)
  {
    var additive := Additive(actions);
    AdditiveAllAdditive(actions);
    seq(|additive|, k requires 0 <= k < |additive| => Inverse(additive[|additive| - 1 - k]))
  }

  lemma {:induction false} AdditiveAllAdditive(s: seq<SystemAction>)
    ensures forall k :: 0 <= k < |Additive(s)| ==> IsAdditive(Additive(s)[k])
  {
    if s != [] {
      AdditiveAllAdditive(s[1..]);
    }
  }

  /** The filter keeps exactly the additive actions: Scripts, uninstalls and
      removals are dropped. */
  lemma {:induction false} AdditiveMembers(s: seq<SystemAction>)
    ensures forall a :: a in Additive(s) <==> a in s && IsAdditive(a)
    ensures |Additive(s)| <= |s|
  {
    if s != [] {
      AdditiveMembers(s[1..]);
      assert s == [s[0]] + s[1..];
    }
  }

  lemma {:induction false} AdditiveAppend(xs: seq<SystemAction>, ys: seq<SystemAction>)
    ensures Additive(xs + ys) == Additive(xs) + Additive(ys)
  {
    if xs == [] {
      assert xs + ys == ys;
    } else {
      AdditiveAppend(xs[1..], ys);
      assert (xs + ys)[0] == xs[0] && (xs + ys)[1..] == xs[1..] + ys;
    }
  }

  /** The inversion lists the inverses of the additive actions in reverse
      order, each in removal form. */
  lemma InverseShape(actions: seq<SystemAction>)
    ensures var r := InverseAdditiveActions(actions);
      var additive := Additive(actions);
      && |r| == |additive|
      && (forall k :: 0 <= k < |r| ==> IsAdditive(additive[|r| - 1 - k]) && r[k] == Inverse(additive[|r| - 1 - k]))
      && (forall k :: 0 <= k < |r| ==> IsRemoval(r[k]))
  {
    AdditiveAllAdditive(actions);
  }

  /** Inverting a concatenation inverts the later part first. */
  lemma InverseAppend(xs: seq<SystemAction>, ys: seq<SystemAction>)
    ensures InverseAdditiveActions(xs + ys) == InverseAdditiveActions(ys) + InverseAdditiveActions(xs)
  {
    AdditiveAppend(xs, ys);
    AdditiveAllAdditive(xs);
    AdditiveAllAdditive(ys);
    var l, a, b := InverseAdditiveActions(xs + ys), InverseAdditiveActions(ys), InverseAdditiveActions(xs);
    assert |l| == |a| + |b|;
    forall k | 0 <= k < |l| ensures l[k] == (a + b)[k] {
      if k < |a| {
        assert Additive(xs + ys)[|l| - 1 - k] == Additive(ys)[|a| - 1 - k];
      } else {
        assert Additive(xs + ys)[|l| - 1 - k] == Additive(xs)[|b| - 1 - (k - |a|)];
      }
    }
  }

  /** Nothing is left to invert in an inversion. */
  lemma InverseOfInverse(actions: seq<SystemAction>)
    ensures InverseAdditiveActions(InverseAdditiveActions(actions)) == []
  {
    var r := InverseAdditiveActions(actions);
    InverseShape(actions);
    AdditiveNone(r);
  }

  lemma {:induction false} AdditiveNone(s: seq<SystemAction>)
    requires forall k :: 0 <= k < |s| ==> IsRemoval(s[k])
    ensures Additive(s) == []
  {
    if s != [] {
      assert IsRemoval(s[0]);
      AdditiveNone(s[1..]);
    }
  }

  /** The inversion of one install and one link: the link's removal comes first. */
  lemma InverseExample()
    ensures InverseAdditiveActions([
        Package(Install, "os", "zsh", "packages/zsh"),
        Script(Run, "chsh", "packages/zsh:post_install"),
        File(Link, "zshrc", "~/.zshrc", "packages/zsh")])
      == [File(Remove, "", "~/.zshrc", "packages/zsh"), Package(Uninstall, "os", "zsh", "packages/zsh")]
  {
    var s := [Package(Install, "os", "zsh", "packages/zsh"),
              Script(Run, "chsh", "packages/zsh:post_install"),
              File(Link, "zshrc", "~/.zshrc", "packages/zsh")];
    assert s[1..][1..] == [s[2]] && s[1..][1..][1..] == [];
    assert Additive(s) == [s[0], s[2]];
    var r := InverseAdditiveActions(s);
    assert |r| == 2 && r[0] == Inverse(s[2]) && r[1] == Inverse(s[0]);
  }

  // ---------------------------------------------------------------------
  // build_action_diff

  /** What `build_action_diff` returns once the lockfile is read: without a
      lockfile, the planned actions; otherwise the inversion of what
      disappeared since the previous run, followed by all planned actions
      when `full` is set and by the new ones only otherwise. */
  function ActionDiff(next: seq<SystemAction>, previous: Option<seq<SystemAction>>, full: bool): seq<SystemAction>
  {
    match previous
    case None => next
    case Some(prev) =>
      InverseAdditiveActions(Difference(prev, next)) + (if full then next else Difference(next, prev))
  }

  /** `build_action_diff` after the lockfile has been read, with the source's appends. */
  method BuildActionDiff(nextSystemActions: seq<SystemAction>, previous: Option<seq<SystemAction>>, full: bool)
    returns (allActions: seq<SystemAction>)
    ensures allActions == ActionDiff(nextSystemActions, previous, full)
  {
    if previous.None? {
      return nextSystemActions;
    }
    var previousActions := previous.value;
    var missingLastActions := MakeDifference(previousActions, nextSystemActions);
    var deleteActions := InverseAdditiveActions(missingLastActions);
    var neededActions;
    if full {
      neededActions := nextSystemActions;
    } else {
      neededActions := MakeDifference(nextSystemActions, previousActions);
    }
    allActions := [];
    allActions := allActions + deleteActions;
    allActions := allActions + neededActions;
  }

  /** Planning exactly what the lockfile holds gives nothing to do, unless
      `full` asks to apply everything again. */
  lemma DiffOfSame(actions: seq<SystemAction>, full: bool)
    ensures ActionDiff(actions, Some(actions), full) == if full then actions else []
  {
    DifferenceCovered(actions, actions);
  }

  /** `full` re-applies every planned action but does not suppress the
      removals: an install dropped from the plan is still uninstalled. */
  lemma FullDiffKeepsRemovals()
    ensures ActionDiff([], Some([Package(Install, "os", "vim", "packages/vim")]), true)
         == [Package(Uninstall, "os", "vim", "packages/vim")]
  {
    var prev := [Package(Install, "os", "vim", "packages/vim")];
    assert Difference(prev, []) == prev by {
      assert prev[..0] == [];
    }
    assert prev[1..] == [];
    assert Additive(prev) == prev;
    var r := InverseAdditiveActions(prev);
    assert |r| == 1 && r[0] == Inverse(prev[0]);
    assert r + [] == r;
  }

  /** The diff is the removals of what disappeared, then the actions to apply:
      a planned action is applied exactly when it is new or `full` is set,
      and every removal undoes an additive action of the lockfile that is no
      longer planned. */
  lemma DiffShape(next: seq<SystemAction>, prev: seq<SystemAction>, full: bool)
    ensures var d := ActionDiff(next, Some(prev), full);
      var removals := InverseAdditiveActions(Difference(prev, next));
      && d[..|removals|] == removals
      && (forall a :: a in d[|removals|..] <==> a in next && (full || a !in prev))
      && (forall k :: 0 <= k < |removals| ==> IsRemoval(removals[k]))
      && (forall a :: a in prev && a !in next && IsAdditive(a) ==> Inverse(a) in removals)
  {
    var missing := Difference(prev, next);
    var removals := InverseAdditiveActions(missing);
    var d := ActionDiff(next, Some(prev), full);
    assert d[|removals|..] == if full then next else Difference(next, prev);
    DifferenceMembers(next, prev);
    DifferenceMembers(prev, next);
    InverseShape(missing);
    AdditiveMembers(missing);
    forall a | a in prev && a !in next && IsAdditive(a) ensures Inverse(a) in removals {
      var additive := Additive(missing);
      var j :| 0 <= j < |additive| && additive[j] == a;
      assert removals[|additive| - 1 - j] == Inverse(a);
    }
  }
}
