/**
 * The backtracking frame stack of the PEG runtime, as values.
 *
 * A parse keeps a stack of frames; index 0 is the root and the last element
 * is the current (innermost) frame. The functions here give the new stack
 * each runtime operation leaves behind; the methods of `Speg.Peg` are proved
 * to produce exactly these stacks, and the lemmas below state the
 * transactional rules in terms of them.
 */
module Frames {

  /** A named binding's value and its "is global" flag. */
  datatype Binding = Binding(value: string, global: bool)

  /** One backtracking checkpoint. */
  datatype Frame = Frame(pos: nat, line: nat, col: nat, vars: map<string, Binding>, committed: bool)

  /** The frame a fresh parser starts from: offset 0, line 1, column 1. */
  function RootFrame(): Frame {
    Frame(0, 1, 1, map[], false)
  }

  function Top(st: seq<Frame>): Frame
    requires |st| > 0
  {
    st[|st| - 1]
  }

  // ---------------------------------------------------------------------
  // Variable lookup

  /** The value bound to `key` by the innermost frame that binds it, else `def`. */
  function Lookup(st: seq<Frame>, key: string, def: string): (r: string)
    // the result is either the default or the value some frame binds the key to
    ensures r == def || exists i :: 0 <= i < |st| && key in st[i].vars && r == st[i].vars[key].value
    decreases |st|
  {
    if |st| == 0 then def
    else if key in Top(st).vars then Top(st).vars[key].value
    else Lookup(st[..|st| - 1], key, def)
  }

  /** Frame `i` binds `key` and no frame above it does. */
  ghost predicate InnermostBinder(st: seq<Frame>, key: string, i: int) {
    0 <= i < |st| && key in st[i].vars && forall j :: i < j < |st| ==> key !in st[j].vars
  }

  ghost predicate Unbound(st: seq<Frame>, key: string) {
    forall i :: 0 <= i < |st| ==> key !in st[i].vars
  }

  /** Lookup yields the innermost binding's value. */
  lemma {:induction false} LookupInnermost(st: seq<Frame>, key: string, def: string, i: int)
    requires InnermostBinder(st, key, i)
    ensures Lookup(st, key, def) == st[i].vars[key].value
    decreases |st|
  {
    if i < |st| - 1 {
      var below := st[..|st| - 1];
      assert InnermostBinder(below, key, i);
      LookupInnermost(below, key, def, i);
    }
  }

  /** Lookup yields the default exactly when no frame binds the key. */
  lemma {:induction false} LookupUnbound(st: seq<Frame>, key: string, def: string)
    requires Unbound(st, key)
    ensures Lookup(st, key, def) == def
    decreases |st|
  {
    if |st| > 0 {
      LookupUnbound(st[..|st| - 1], key, def);
    }
  }

  /** Every stack either leaves `key` unbound or has an innermost binder for it. */
  lemma {:induction false} LookupCases(st: seq<Frame>, key: string, def: string)
    ensures Unbound(st, key) ==> Lookup(st, key, def) == def
    ensures !Unbound(st, key) ==>
      exists i :: InnermostBinder(st, key, i) && Lookup(st, key, def) == st[i].vars[key].value
    decreases |st|
  {
    if Unbound(st, key) {
      LookupUnbound(st, key, def);
    } else if key in Top(st).vars {
      assert InnermostBinder(st, key, |st| - 1);
    } else {
      var below := st[..|st| - 1];
      assert !Unbound(below, key);
      LookupCases(below, key, def);
      var i :| InnermostBinder(below, key, i) && Lookup(below, key, def) == below[i].vars[key].value;
      assert InnermostBinder(st, key, i);
    }
  }

  /** Two stacks of the same height whose frames hold the same bindings. */
  ghost predicate SameBindings(a: seq<Frame>, b: seq<Frame>) {
    |a| == |b| && forall i :: 0 <= i < |a| ==> a[i].vars == b[i].vars
  }

  /** Lookup sees only the bindings: positions and committed flags do not matter. */
  lemma {:induction false} LookupSameBindings(a: seq<Frame>, b: seq<Frame>, key: string, def: string)
    requires SameBindings(a, b)
    ensures Lookup(a, key, def) == Lookup(b, key, def)
    decreases |a|
  {
    if |a| > 0 {
      LookupSameBindings(a[..|a| - 1], b[..|b| - 1], key, def);
    }
  }

  // ---------------------------------------------------------------------
  // The stack operations

  /** `_enter`: reset the current frame's committed flag and push a checkpoint at its position. */
  function EnterFrames(st: seq<Frame>): (r: seq<Frame>)
    requires |st| > 0
    ensures |r| == |st| + 1
    ensures r[..|st| - 1] == st[..|st| - 1]
    ensures r[|st| - 1] == Top(st).(committed := false)
    ensures r[|st|] == Frame(Top(st).pos, Top(st).line, Top(st).col, map[], false)
  {
    var t := Top(st);
    st[|st| - 1 := t.(committed := false)] + [Frame(t.pos, t.line, t.col, map[], false)]
  }

  /** `_exit`: discard the current frame. */
  function ExitFrames(st: seq<Frame>): (r: seq<Frame>)
    requires |st| > 1
    ensures |r| == |st| - 1
    ensures forall i :: 0 <= i < |r| ==> r[i] == st[i]
  {
    st[..|st| - 1]
  }

  /** `set`: bind `key` in the current frame only. */
  function SetFrames(st: seq<Frame>, key: string, val: string, global: bool): (r: seq<Frame>)
    requires |st| > 0
    ensures |r| == |st| && r[..|st| - 1] == st[..|st| - 1]
    ensures Top(r).pos == Top(st).pos && Top(r).line == Top(st).line && Top(r).col == Top(st).col
    ensures Top(r).committed == Top(st).committed
    ensures Top(r).vars == Top(st).vars[key := Binding(val, global)]
  {
    var t := Top(st);
    st[|st| - 1 := t.(vars := t.vars[key := Binding(val, global)])]
  }

  /** The keys of `cv` among `keys` whose binding is flagged global. */
  function GlobalKeys(cv: map<string, Binding>, keys: set<string>): (r: set<string>)
    requires keys <= cv.Keys
    ensures forall k :: k in r <==> k in keys && cv[k].global
  {
    set k | k in keys && cv[k].global
  }

  /**
   * The parent's bindings after the global bindings of `cv` among `keys` are
   * folded into them: an existing parent binding takes the child's value and
   * keeps its own flag, a new one is added flagged global.
   */
  function FoldGlobals(pv: map<string, Binding>, cv: map<string, Binding>, keys: set<string>): (r: map<string, Binding>)
    requires keys <= cv.Keys
    ensures r.Keys == pv.Keys + GlobalKeys(cv, keys)
    ensures forall k :: k in keys && cv[k].global ==> r[k].value == cv[k].value
    ensures forall k :: k in pv && !(k in keys && cv[k].global) ==> r[k] == pv[k]
  {
    map k | k in pv.Keys + GlobalKeys(cv, keys) ::
      if k in keys && cv[k].global then
        (if k in pv then Binding(cv[k].value, pv[k].global) else Binding(cv[k].value, true))
      else pv[k]
  }

  /** Folding one more key extends the fold by that key's update, if it is global. */
  lemma FoldGlobalsStep(pv: map<string, Binding>, cv: map<string, Binding>, done: set<string>, k: string)
    requires done <= cv.Keys && k in cv && k !in done
    ensures var m := FoldGlobals(pv, cv, done);
      FoldGlobals(pv, cv, done + {k}) ==
        if !cv[k].global then m
        else if k in m then m[k := Binding(cv[k].value, m[k].global)]
        else m[k := Binding(cv[k].value, true)]
  {
  }

  /** The parent's bindings after `commit` folds the child's bindings `cv` into `pv`. */
  function CommitVars(pv: map<string, Binding>, cv: map<string, Binding>): (r: map<string, Binding>)
    // every global child binding reaches the parent with the child's value
    ensures forall k :: k in cv && cv[k].global ==> k in r && r[k].value == cv[k].value
    // an existing parent binding keeps its own flag; a new one is flagged global
    ensures forall k :: k in cv && cv[k].global && k in pv ==> r[k].global == pv[k].global
    ensures forall k :: k in cv && cv[k].global && k !in pv ==> r[k].global
    // keys that are not global in the child: present exactly when the parent had them, unchanged
    ensures forall k :: !(k in cv && cv[k].global) ==> (k in r <==> k in pv)
    ensures forall k :: k in pv && !(k in cv && cv[k].global) ==> r[k] == pv[k]
  {
    FoldGlobals(pv, cv, cv.Keys)
  }

  /**
   * `commit`: the parent takes the current frame's position, line and column,
   * its committed flag is set and the global bindings are folded into it. The
   * current frame stays on the stack.
   */
  function CommitFrames(st: seq<Frame>): (r: seq<Frame>)
    requires |st| > 1
    ensures var n := |st|;
      && |r| == n
      && r[..n - 2] == st[..n - 2]
      && r[n - 1] == st[n - 1]
      && r[n - 2].pos == st[n - 1].pos && r[n - 2].line == st[n - 1].line && r[n - 2].col == st[n - 1].col
      && r[n - 2].committed
      && r[n - 2].vars == CommitVars(st[n - 2].vars, st[n - 1].vars)
  {
    var c := st[|st| - 1];
    var p := st[|st| - 2];
    st[|st| - 2 := Frame(c.pos, c.line, c.col, CommitVars(p.vars, c.vars), true)]
  }

  // ---------------------------------------------------------------------
  // Lemmas relating the operations

  /** Entering a checkpoint does not change what any key looks up to. */
  lemma EnterKeepsLookup(st: seq<Frame>, key: string, def: string)
    requires |st| > 0
    ensures Lookup(EnterFrames(st), key, def) == Lookup(st, key, def)
  {
  }

  /** A `set` followed by a lookup of the same key yields the value just set. */
  lemma SetThenLookup(st: seq<Frame>, key: string, val: string, global: bool, def: string)
    requires |st| > 0
    ensures Lookup(SetFrames(st, key, val, global), key, def) == val
  {
  }

  /** A `set` does not change what other keys look up to. */
  lemma SetKeepsOtherLookups(st: seq<Frame>, key: string, val: string, global: bool, other: string, def: string)
    requires |st| > 0 && other != key
    ensures Lookup(SetFrames(st, key, val, global), other, def) == Lookup(st, other, def)
  {
  }

  /**
   * After an accepted attempt (`commit` then `_exit`), a key flagged global in
   * the attempt's frame looks up to the attempt's value; any other key looks
   * up as if the attempt's frame had simply been discarded.
   */
  lemma AcceptLookup(st: seq<Frame>, key: string, def: string)
    requires |st| > 1
    ensures key in Top(st).vars && Top(st).vars[key].global ==>
      Lookup(ExitFrames(CommitFrames(st)), key, def) == Top(st).vars[key].value
    ensures !(key in Top(st).vars && Top(st).vars[key].global) ==>
      Lookup(ExitFrames(CommitFrames(st)), key, def) == Lookup(ExitFrames(st), key, def)
  {
  }

  /** The parent of an accepted attempt ends at the attempt's position, committed. */
  lemma AcceptAdvancesParent(st: seq<Frame>)
    requires |st| > 1
    ensures var t := Top(ExitFrames(CommitFrames(st)));
      t.pos == Top(st).pos && t.line == Top(st).line && t.col == Top(st).col && t.committed
  {
  }

  /** A binding set global inside an accepted attempt is visible afterwards. */
  lemma GlobalSurvivesAccept(st: seq<Frame>, key: string, val: string, def: string)
    requires |st| > 0
    ensures Lookup(ExitFrames(CommitFrames(SetFrames(EnterFrames(st), key, val, true))), key, def) == val
  {
  }

  /** A binding set non-global inside an accepted attempt is gone afterwards. */
  lemma LocalDroppedOnAccept(st: seq<Frame>, key: string, val: string, def: string)
    requires |st| > 0
    ensures Lookup(ExitFrames(CommitFrames(SetFrames(EnterFrames(st), key, val, false))), key, def)
         == Lookup(st, key, def)
  {
  }

  // ---------------------------------------------------------------------
  // Nested attempts

  /**
   * What generated rule code does with the stack: bind a variable in the
   * current frame, or open an attempt, run its body and then accept it
   * (`commit` then `_exit`) or reject it (`_exit` alone).
   */
  datatype Action =
    | Bind(key: string, val: string, global: bool)
    | Attempt(body: seq<Action>, accept: bool)

  /** Running an action leaves the stack height and every frame below the current one unchanged. */
  function Run(st: seq<Frame>, a: Action): (r: seq<Frame>)
    requires |st| > 0
    ensures |r| == |st| && r[..|st| - 1] == st[..|st| - 1]
    decreases a
  {
    match a
    case Bind(k, v, g) => SetFrames(st, k, v, g)
    case Attempt(body, accept) =>
      var inner := RunAll(EnterFrames(st), body);
      if accept then ExitFrames(CommitFrames(inner)) else ExitFrames(inner)
  }

  function RunAll(st: seq<Frame>, acts: seq<Action>): (r: seq<Frame>)
    requires |st| > 0
    ensures |r| == |st| && r[..|st| - 1] == st[..|st| - 1]
    decreases acts
  {
    if acts == [] then st else RunAll(Run(st, acts[0]), acts[1..])
  }

  /**
   * Rollback exactness: whatever a rejected attempt's body does, the stack
   * afterwards is the stack before it, except that the current frame's
   * committed flag is cleared (by `_enter`).
   */
  lemma RejectRestores(st: seq<Frame>, body: seq<Action>)
    requires |st| > 0
    ensures Run(st, Attempt(body, false)) == st[|st| - 1 := Top(st).(committed := false)]
  {
  }

  /** After a rejected attempt every key looks up to what it did before. */
  lemma RejectKeepsLookup(st: seq<Frame>, body: seq<Action>, key: string, def: string)
    requires |st| > 0
    ensures Lookup(Run(st, Attempt(body, false)), key, def) == Lookup(st, key, def)
  {
  }

  /** After an attempt, the current frame's committed flag says whether it was accepted (`toBoolean`). */
  lemma AttemptReportsAccept(st: seq<Frame>, body: seq<Action>, accept: bool)
    requires |st| > 0
    ensures Top(Run(st, Attempt(body, accept))).committed == accept
  {
  }
}
