/**
 * The PEG runtime object (`peg` in speg/peg.go): the input text, the stack
 * of backtracking frames and the failures recorded per offset. Each method
 * updates the state in place as the runtime does, and is proved to leave
 * the stack the corresponding function of `Frames` gives.
 */
module Speg {
  import opened Wrappers
  import opened Frames
  import opened Report

  /** How an operation that may fail ends: the failure carries the failing frame and the expectation. */
  datatype Outcome = Success | Failure(state: Frame, expr: string)

  class Peg {
    const s: string
    var states: seq<Frame>
    var errors: map<nat, PegError>

    /** The stack always holds at least the root frame. */
    ghost predicate Valid()
      reads this
    {
      |states| > 0
    }

    /** The current (innermost) frame. */
    function Current(): Frame
      reads this
      requires Valid()
    {
      states[|states| - 1]
    }

    /** `newPeg` on a fresh runtime over input `s`: one root frame, no failures. */
    constructor (s: string)
      ensures Valid() && this.s == s
      ensures states == [RootFrame()]
      ensures |states| == 1 && states[0].pos == 0 && states[0].line == 1 && states[0].col == 1
      ensures states[0].vars == map[] && !states[0].committed
      ensures errors == map[]
    {
      this.s := s;
      errors := map[];
      states := [];
      states := states + [Frame(0, 1, 1, map[], false)];
    }

    /** `newPeg` on an existing runtime: a root frame is appended to whatever stack it has. */
    method AppendRoot()
      modifies this`states
      ensures Valid()
      ensures states == old(states) + [RootFrame()]
    {
      states := states + [Frame(0, 1, 1, map[], false)];
    }

    /** `_enter`: open a checkpoint at the current position. */
    method Enter()
      requires Valid()
      modifies this`states
      ensures Valid() && states == EnterFrames(old(states))
      ensures |states| == |old(states)| + 1
      ensures states[..|old(states)| - 1] == old(states)[..|old(states)| - 1]
      ensures states[|old(states)| - 1] == old(Current()).(committed := false)
      ensures Current() == Frame(old(Current()).pos, old(Current()).line, old(Current()).col, map[], false)
    {
      var n := |states|;
      var last := states[n - 1];
      states := states[n - 1 := last.(committed := false)];
      states := states + [Frame(last.pos, last.line, last.col, map[], false)];
    }

    /** `_exit`: discard the current frame (the reject path; after `Commit`, the accept path). */
    method Exit()
      requires Valid() && |states| > 1
      modifies this`states
      ensures Valid() && states == ExitFrames(old(states))
      ensures states == old(states)[..|old(states)| - 1]
    {
      states := states[..|states| - 1];
    }

    /**
     * `commit`: fold the current frame into its parent. The current frame
     * stays on the stack.
     */
    method Commit()
      requires Valid() && |states| > 1
      modifies this`states
      ensures Valid() && states == CommitFrames(old(states))
      ensures var n := |old(states)|;
        && |states| == n
        && states[..n - 2] == old(states)[..n - 2]
        && states[n - 1] == old(states)[n - 1]
        && states[n - 2].pos == old(states)[n - 1].pos
        && states[n - 2].line == old(states)[n - 1].line
        && states[n - 2].col == old(states)[n - 1].col
        && states[n - 2].committed
        && states[n - 2].vars == CommitVars(old(states)[n - 2].vars, old(states)[n - 1].vars)
    {
      var n := |states|;
      var current := states[n - 1];
      var previous := states[n - 2];
      var vars := previous.vars;
      var todo := current.vars.Keys;
      while todo != {}
        invariant states == old(states)
        invariant todo <= current.vars.Keys
        invariant vars == FoldGlobals(previous.vars, current.vars, current.vars.Keys - todo)
        decreases todo
      {
        var key :| key in todo;
        var v := current.vars[key];
        FoldGlobalsStep(previous.vars, current.vars, current.vars.Keys - todo, key);
        if v.global {
          if key in vars {
            vars := vars[key := Binding(v.value, vars[key].global)];
          } else {
            vars := vars[key := Binding(v.value, true)];
          }
        }
        assert current.vars.Keys - (todo - {key}) == (current.vars.Keys - todo) + {key};
        todo := todo - {key};
      }
      assert current.vars.Keys - todo == current.vars.Keys;
      states := states[n - 2 := Frame(current.pos, current.line, current.col, vars, true)];
    }

    /** `get`: the innermost binding of `key`, or `def`; changes nothing. */
    method Get(key: string, def: string) returns (r: string)
      requires Valid()
      ensures r == Lookup(states, key, def)
      ensures Unbound(states, key) ==> r == def
      ensures forall i :: InnermostBinder(states, key, i) ==> r == states[i].vars[key].value
    {
      LookupCases(states, key, def);
      var i := |states| - 1;
      assert states[..i + 1] == states;
      while i >= 0
        invariant -1 <= i < |states|
        invariant Lookup(states, key, def) == Lookup(states[..i + 1], key, def)
      {
        if key in states[i].vars {
          return states[i].vars[key].value;
        }
        assert states[..i + 1][..i] == states[..i];
        i := i - 1;
      }
      return def;
    }

    /** `set`: bind `key` to `val` in the current frame only. */
    method Set(key: string, val: string, global: bool)
      requires Valid()
      modifies this`states
      ensures Valid() && states == SetFrames(old(states), key, val, global)
      ensures |states| == |old(states)| && states[..|states| - 1] == old(states)[..|states| - 1]
      ensures Current() == old(Current()).(vars := old(Current()).vars[key := Binding(val, global)])
    {
      var n := |states|;
      var top := states[n - 1];
      states := states[n - 1 := top.(vars := top.vars[key := Binding(val, global)])];
    }

    /** `toBoolean`: whether the last attempt opened from the current frame was accepted. */
    method ToBoolean() returns (b: bool)
      requires Valid()
      ensures b == Current().committed
    {
      b := states[|states| - 1].committed;
    }

    /**
     * `_error`: record a failure at the current offset, with the current line
     * and column, replacing any earlier record at that offset, and fail.
     */
    method Error(err: Option<string>, expr: string) returns (o: Outcome)
      requires Valid()
      modifies this`errors
      ensures o == Failure(Current(), expr)
      ensures errors == old(errors)[Current().pos :=
        PegError(FailureMessage(s, Current().pos, err, expr), Current().line, Current().col)]
      ensures forall off :: off != Current().pos ==>
        (off in errors <==> off in old(errors)) && (off in errors ==> errors[off] == old(errors)[off])
    {
      var st := states[|states| - 1];
      var msg := if err.Some? then err.value else "expected " + expr + ", found " + Excerpt(s, st.pos);
      errors := errors[st.pos := PegError(msg, st.line, st.col)];
      o := Failure(st, expr);
    }

    /** `_eof`: fail unless the current frame has consumed the whole input. */
    method Eof() returns (o: Outcome)
      requires Valid()
      modifies this`errors
      ensures o.Failure? <==> Current().pos != |s|
      ensures o.Success? ==> errors == old(errors)
      ensures o.Failure? ==> o == Failure(Current(), "") && errors == old(errors)[Current().pos :=
        PegError(FailureMessage(s, Current().pos, None, ""), Current().line, Current().col)]
    {
      if states[|states| - 1].pos != |s| {
        o := Error(None, "");
      } else {
        o := Success;
      }
    }
  }

  /**
   * The transactional contract seen by a client of the class: a rejected
   * attempt leaves the bindings and position of the caller's frame as they
   * were, and reports false through `ToBoolean`.
   */
  method RejectedAttempt(p: Peg, key: string, val: string, global: bool) returns (seen: bool)
    requires p.Valid()
    modifies p`states
    ensures p.errors == old(p.errors)
    ensures p.Valid() && p.states == old(p.states)[|old(p.states)| - 1 := old(p.Current()).(committed := false)]
    ensures !seen
  {
    p.Enter();
    p.Set(key, val, global);
    p.Exit();
    seen := p.ToBoolean();
  }

  /**
   * An accepted attempt that binds `key` globally: afterwards `get` finds
   * the value, the caller's frame stands at the attempt's position and
   * `ToBoolean` reports true.
   */
  method AcceptedAttempt(p: Peg, key: string, val: string, def: string) returns (found: string, seen: bool)
    requires p.Valid()
    modifies p`states
    ensures p.Valid() && p.states == ExitFrames(CommitFrames(SetFrames(EnterFrames(old(p.states)), key, val, true)))
    ensures p.errors == old(p.errors)
    ensures |p.states| == |old(p.states)| && p.states[..|p.states| - 1] == old(p.states)[..|p.states| - 1]
    ensures p.Current().pos == old(p.Current()).pos
    ensures found == val && seen
  {
    ghost var st := p.states;
    p.Enter();
    p.Set(key, val, true);
    p.Commit();
    p.Exit();
    GlobalSurvivesAccept(st, key, val, def);
    found := p.Get(key, def);
    seen := p.ToBoolean();
  }
}
