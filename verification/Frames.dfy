/**
  The call protocol of inc/vm.h: frames on a byte stack, a return address that
  is filled in when the call happens, and tail recursion that copies a "shadow
  frame" of new arguments over the old ones.
*/
module Frames {
  import opened Octets

  // reg_t
  type Reg = x: nat | x < 0x1_0000

  // NORMAL_JUMP and NO_PREV_FP
  const UNSET: Reg := 0xFFFF

  const MODE_TAIL_CALL := 0
  const MODE_TAIL_REC := 1
  const MODE_NORMAL := 2

  function Encode(r: Reg): (b: Bytes)
    ensures |b| == 2 && Decode(b) == r
  {
    [r % 256, r / 256]
  }

  function Decode(b: Bytes): Reg
    requires |b| == 2
  {
    (b[0] as int) + 256 * (b[1] as int)
  }

  // The bit fields of vm->attr: shadow has five bits, mode two.
  datatype Attr = Attr(shadow: nat, mode: nat, reserved: nat) {
    predicate Ok() {
      shadow < 32 && mode < 4 && reserved < 2
    }

    // attr.all
    function All(): (b: Byte)
      requires Ok()
      ensures FromAll(b) == this
    {
      shadow + 32 * mode + 128 * reserved
    }
  }

  function FromAll(b: Byte): (a: Attr)
    ensures a.Ok()
  {
    Attr(b % 32, b / 32 % 4, b / 128)
  }

  /**
    Programs of the instruction grammar that concern frames.  An action leaves
    one object on the stack; a call is a normal prelude, an action for every
    argument, and the call instruction, whose successor is retPc.  A body is
    left by a restore, or by a tail call of the same arity.
  */
  datatype Act =
    | Const(obj: Bytes)
    | Local(index: nat)
    | Call(args: Args, retPc: Reg, entry: Reg, body: Body)

  // Arguments in the order they are pushed.
  datatype Args = NoArgs | More(before: Args, last: Act) {
    function Count(): nat {
      if NoArgs? then 0 else before.Count() + 1
    }
  }

  datatype Body =
    | Then(first: Act, rest: Body)
    | Return(result: Act)
    | TailRec(args: Args, retPc: Reg, entry: Reg, next: Body)

  // size is sizeof (Object), n the number of arguments of the running
  // procedure.
  predicate ActOk(a: Act, n: nat, size: nat) {
    match a
    case Const(obj) => |obj| == size
    case Local(i) => i < n
    case Call(args, _, _, body) => ArgsOk(args, n, size) && BodyOk(body, args.Count(), size)
  }

  predicate ArgsOk(args: Args, n: nat, size: nat) {
    args.More? ==> ArgsOk(args.before, n, size) && ActOk(args.last, n, size)
  }

  // A tail call has the arity of the procedure, at most 31: the shadow field
  // has five bits.
  predicate BodyOk(b: Body, n: nat, size: nat) {
    match b
    case Then(a, rest) => ActOk(a, n, size) && BodyOk(rest, n, size)
    case Return(a) => ActOk(a, n, size)
    case TailRec(args, _, _, next) => args.Count() == n <= 31 && ArgsOk(args, n, size) && BodyOk(next, n, size)
  }

  predicate Sized(env: seq<Bytes>, size: nat) {
    forall x :: x in env ==> |x| == size
  }

  // What programs mean, with arguments in a list instead of on a stack.
  function Eval(a: Act, env: seq<Bytes>, size: nat): (v: Bytes)
    requires ActOk(a, |env|, size) && Sized(env, size)
    ensures |v| == size
  {
    match a
    case Const(obj) => obj
    case Local(i) => env[i]
    case Call(args, _, _, body) => EvalBody(body, EvalArgs(args, env, size), size)
  }

  function EvalArgs(args: Args, env: seq<Bytes>, size: nat): (vs: seq<Bytes>)
    requires ArgsOk(args, |env|, size) && Sized(env, size)
    ensures |vs| == args.Count() && Sized(vs, size)
  {
    if args.NoArgs? then [] else EvalArgs(args.before, env, size) + [Eval(args.last, env, size)]
  }

  function EvalBody(b: Body, env: seq<Bytes>, size: nat): (v: Bytes)
    requires BodyOk(b, |env|, size) && Sized(env, size)
    ensures |v| == size
  {
    match b
    case Then(_, rest) => EvalBody(rest, env, size)
    case Return(a) => Eval(a, env, size)
    case TailRec(args, _, _, next) => EvalBody(next, EvalArgs(args, env, size), size)
  }

  // Objects next to each other.
  function Join(env: seq<Bytes>): Bytes {
    if env == [] then [] else Join(env[..|env| - 1]) + env[|env| - 1]
  }

  // (k + 1) objects take one more size than k.
  lemma OneMore(k: int, size: int)
    ensures (k + 1) * size == k * size + size
  {
  }

  lemma {:induction false} JoinLength(env: seq<Bytes>, size: nat)
    requires Sized(env, size)
    ensures |Join(env)| == |env| * size
  {
    if env != [] {
      var front := env[..|env| - 1];
      assert forall x :: x in front ==> x in env;
      JoinLength(front, size);
      assert env[|env| - 1] in env;
      OneMore(|front|, size);
    }
  }

  // The i-th object lies i sizes from the start.
  lemma {:induction false} JoinAt(env: seq<Bytes>, size: nat, i: nat)
    requires Sized(env, size) && i < |env|
    ensures 0 <= i * size <= i * size + size <= |Join(env)| && Join(env)[i * size..i * size + size] == env[i]
  {
    var front := env[..|env| - 1];
    assert Sized(front, size) && env[|env| - 1] in env;
    JoinLength(front, size);
    if i < |front| {
      JoinAt(front, size, i);
      assert Join(env)[i * size..i * size + size] == Join(front)[i * size..i * size + size];
    }
  }

  lemma JoinNone()
    ensures Join([]) == []
  {
  }

  lemma JoinMore(env: seq<Bytes>, x: Bytes)
    ensures Join(env + [x]) == Join(env) + x
  {
    assert (env + [x])[..|env|] == env;
  }

  // The saved part of a frame, from fp to local.
  function Saved(pc: Reg, local: Reg, fp: Reg, attr: Attr, closure: Bytes): (b: Bytes)
    requires attr.Ok()
    ensures |b| == 7 + |closure|
  {
    Encode(pc) + Encode(local) + Encode(fp) + [attr.All()] + closure
  }

  // A frame is its fields pushed one after the other.
  lemma FramePushed(below: Bytes, pc: Reg, local: Reg, fp: Reg, attr: Attr, closure: Bytes)
    requires attr.Ok()
    ensures below + Saved(pc, local, fp, attr, closure)
         == below + Encode(pc) + Encode(local) + Encode(fp) + [attr.All()] + closure
  {
  }

  lemma SlotFirst(below: Bytes, pc: Reg, local: Reg, fp: Reg, attr: Attr, closure: Bytes, above: Bytes)
    requires attr.Ok()
    ensures below + Saved(pc, local, fp, attr, closure) + above
         == below + Encode(pc) + (Encode(local) + Encode(fp) + [attr.All()] + closure + above)
  {
    hide Encode;
  }

  // The return address of a body entered with pc in the slot: a tail call fills
  // the slot only if it is still unset.
  function FinalPc(b: Body, pc: Reg): Reg {
    match b
    case Then(_, rest) => FinalPc(rest, pc)
    case Return(_) => pc
    case TailRec(_, retPc, _, next) => FinalPc(next, if pc == UNSET then retPc else pc)
  }

  // Some tail call of the body would fill an unset slot.
  predicate Fills(b: Body) {
    match b
    case Then(_, rest) => Fills(rest)
    case Return(_) => false
    case TailRec(_, retPc, _, next) => retPc != UNSET || Fills(next)
  }

  // A return address survives the tail calls of the body unless it is 0xFFFF,
  // which reads as an empty slot.
  lemma {:induction false} ReturnAddressKept(b: Body, pc: Reg)
    ensures FinalPc(b, pc) == pc <==> pc != UNSET || !Fills(b)
  {
    match b
    case Then(_, rest) => ReturnAddressKept(rest, pc);
    case Return(_) =>
    case TailRec(_, retPc, _, next) => ReturnAddressKept(next, if pc == UNSET then retPc else pc);
  }

  // What SAVE_ENV stores for the frame pointer, and what RESTORE makes of it.
  function SavedFp(sp: Reg, fp: Reg): Reg {
    if sp != 0 then (if fp != 0 then fp else UNSET) else fp
  }

  function RestoredFp(fp: Reg): Reg {
    if fp == UNSET then 0 else fp
  }

  // Every frame pointer comes back but 0xFFFF, which comes back as 0.
  lemma FramePointerKept(sp: Reg, fp: Reg)
    ensures RestoredFp(SavedFp(sp, fp)) == fp <==> fp != UNSET
  {
  }

  // The address execution continues at after an action.
  function PcAfter(a: Act, pc: Reg): Reg {
    if a.Call? then FinalPc(a.body, a.retPc) else pc
  }

  function Max(a: nat, b: nat): nat {
    if a < b then b else a
  }

  // How many bytes above the stack pointer an action needs, where a saved
  // frame has fps bytes.
  function Need(a: Act, size: nat, fps: nat): nat {
    match a
    case Const(_) => size
    case Local(_) => size
    case Call(args, _, _, body) => fps + Max(NeedArgs(args, size, fps), NeedBody(body, args.Count(), args.Count(), size, fps))
  }

  function NeedArgs(args: Args, size: nat, fps: nat): nat {
    if args.NoArgs? then
      0
    else
      Max(NeedArgs(args.before, size, fps), args.before.Count() * size + Need(args.last, size, fps))
  }

  // How many bytes above its first local a body needs when n is its arity and
  // it has high objects there.
  function NeedBody(b: Body, n: nat, high: nat, size: nat, fps: nat): nat {
    match b
    case Then(a, rest) => Max(high * size + Need(a, size, fps), NeedBody(rest, n, high + 1, size, fps))
    case Return(a) => high * size + Need(a, size, fps)
    case TailRec(args, _, _, next) => Max(n * size + NeedArgs(args, size, fps), NeedBody(next, n, n, size, fps))
  }

  // k tail calls of a procedure to itself, then something else.
  function Iterate(k: nat, args: Args, retPc: Reg, entry: Reg, last: Body): Body {
    if k == 0 then last else TailRec(args, retPc, entry, Iterate(k - 1, args, retPc, entry, last))
  }

  // A loop of tail calls needs no more stack than its first round and its end.
  lemma {:induction false} LoopNeedsNoMore(k: nat, args: Args, retPc: Reg, entry: Reg, last: Body, size: nat, fps: nat)
    requires 0 < k
    ensures var n := args.Count();
      NeedBody(Iterate(k, args, retPc, entry, last), n, n, size, fps)
      == Max(n * size + NeedArgs(args, size, fps), NeedBody(last, n, n, size, fps))
  {
    if k > 1 {
      LoopNeedsNoMore(k - 1, args, retPc, entry, last, size, fps);
    }
  }

  // x lies in s at the given place.
  ghost predicate Holds(s: Bytes, at: nat, x: Bytes) {
    at + |x| <= |s| && s[at..at + |x|] == x
  }

  lemma HoldsPart(s: Bytes, at: nat, x: Bytes, from: nat, y: Bytes)
    requires Holds(s, at, x) && Holds(x, from, y)
    ensures Holds(s, at + from, y)
  {
    forall k | 0 <= k < |y|
      ensures s[at + from + k] == y[k]
    {
      assert s[at..at + |x|][from + k] == x[from + k] == x[from..from + |y|][k];
    }
  }

  // The registers a frame keeps for its caller.
  datatype Caller = Caller(local: Reg, fp: Reg, attr: Attr, closure: Bytes)

  class Vm {
    // sizeof (Object) and sizeof (closure_t)
    const size: nat
    const pointer: nat
    const stack: array<Byte>
    var pc: Reg
    var sp: Reg
    var fp: Reg
    var local: Reg
    var closure: Bytes
    var attr: Attr

    constructor (size: nat, pointer: nat, length: nat)
      requires 0 < size && 0 < length && length + size + pointer + 7 <= 0x1_0000
      ensures Valid() && fresh(stack) && sp == fp == local == 0 && this.size == size && closure == Null()
    {
      this.size, this.pointer := size, pointer;
      stack := new Byte[length](_ => 0);
      pc, sp, fp, local := 0, 0, 0, 0;
      closure := seq(pointer, _ => 0);
      attr := Attr(0, MODE_NORMAL, 0);
    }

    // FPS
    function FrameSize(): nat {
      7 + pointer
    }

    ghost predicate Valid()
      reads this
    {
      && 0 < size && |closure| == pointer && attr.Ok()
      && sp < stack.Length && stack.Length + size + FrameSize() <= 0x1_0000
    }

    // The stack up to the first blank.
    ghost function Content(): (s: Bytes)
      requires sp <= stack.Length
      reads this`sp, stack
      ensures |s| == sp
    {
      stack[..sp]
    }

    function Null(): (c: Bytes)
      ensures |c| == pointer
    {
      seq(pointer, _ => 0)
    }

    // PUSHx.  The check comes after the write; here a push that would fail the
    // check is refused.
    method Push(data: Bytes) returns (ok: bool)
      requires Valid() && sp + |data| < 0x1_0000
      modifies this`sp, stack
      ensures Valid() && ok == (old(sp) + |data| < stack.Length)
      ensures Content() == if ok then old(Content()) + data else old(Content())
    {
      ok := sp + |data| < stack.Length;
      if ok {
        Write(sp, data);
        sp := sp + |data|;
      }
    }

    // A store of several bytes.
    method Write(at: nat, data: Bytes)
      requires at + |data| <= stack.Length
      modifies stack
      ensures stack[..] == old(stack[..at]) + data + old(stack[at + |data|..])
    {
      forall i | 0 <= i < |data| {
        stack[at + i] := data[i];
      }
    }

    // POPx
    method Pop(n: nat, ghost rest: Bytes, ghost top: Bytes) returns (data: Bytes)
      requires Valid() && |top| == n && Content() == rest + top
      modifies this`sp
      ensures Valid() && Content() == rest && data == top
    {
      assert Content()[|rest|..] == top;
      sp := sp - n;
      data := stack[sp..sp + n];
      assert stack[..sp] == (rest + top)[..|rest|];
    }

    // A read of several bytes.
    function Load(at: nat, length: nat, ghost x: Bytes): (data: Bytes)
      requires sp <= stack.Length && |x| == length && Holds(Content(), at, x)
      reads this`sp, stack
      ensures data == x
    {
      assert Content()[at..at + length] == stack[at..at + length];
      stack[at..at + length]
    }

    // SAVE_ENV for a normal call.
    method SaveEnv() returns (ok: bool)
      requires Valid()
      modifies this`sp, this`fp, this`attr, stack
      ensures Valid() && ok == (old(sp) + FrameSize() < stack.Length)
      ensures ok ==>
        && fp == old(sp) && attr == Attr(0, MODE_NORMAL, old(attr.reserved))
        && Content() == old(Content()) + Saved(UNSET, local, SavedFp(old(sp), old(fp)), old(attr), closure)
    {
      hide Saved, Encode;
      ghost var below := Content();
      FramePushed(below, UNSET, local, SavedFp(sp, fp), attr, closure);
      ok := PushRegisters();
      if ok {
        ok := Push([attr.All()]);
      }
      if ok {
        ok := Push(closure);
      }
      if ok {
        attr := attr.(shadow := 0);
        fp := sp - FrameSize();
        attr := attr.(mode := MODE_NORMAL);
      }
    }

    method PushRegisters() returns (ok: bool)
      requires Valid()
      modifies this`sp, stack
      ensures Valid() && ok == (old(sp) + 6 < stack.Length)
      ensures ok ==> Content() == old(Content()) + Encode(UNSET) + Encode(local) + Encode(SavedFp(old(sp), fp))
    {
      hide Encode;
      var saved := SavedFp(sp, fp);
      ok := Push(Encode(UNSET));
      if ok {
        ok := Push(Encode(local));
      }
      if ok {
        ok := Push(Encode(saved));
      }
    }

    // SAVE_ENV for a tail call to the same procedure.
    method SaveEnvTailRec(arity: nat)
      requires Valid() && arity < 64 && local + arity * size <= sp
      modifies this`sp, this`attr
      ensures Valid() && attr == Attr(arity % 32, MODE_TAIL_REC, old(attr.reserved))
      ensures Content() == old(Content())[..local + arity * size]
    {
      sp := local + arity * size;
      attr := attr.(shadow := arity % 32);
      attr := attr.(mode := MODE_TAIL_REC);
    }

    // FIX_PC
    method FixPc(ghost below: Bytes, ghost slot: Reg, ghost above: Bytes)
      requires Valid() && fp == |below| && Content() == below + Encode(slot) + above
      modifies stack
      ensures Content() == below + Encode(if slot == UNSET then pc else slot) + above
    {
      hide Encode, Decode;
      assert Content()[..fp] == below && Content()[fp..fp + 2] == Encode(slot) && Content()[fp + 2..] == above;
      if Decode(Load(fp, 2, Encode(slot))) == UNSET {
        Write(fp, Encode(pc));
        assert stack[..sp] == old(stack[..fp]) + Encode(pc) + old(stack[fp + 2..sp]);
      }
    }

    // PROC_CALL
    method ProcCall(entry: Reg)
      requires Valid() && fp + FrameSize() <= sp
      requires attr.shadow != 0 && sp != local ==> local + attr.shadow * size <= sp - attr.shadow * size
      modifies this`sp, this`closure, this`local, this`pc, stack
      ensures Valid() && closure == Null() && local == fp + FrameSize() && pc == entry
      ensures Content() ==
        if old(attr.shadow != 0 && sp != local) then
          old(Content())[..old(local)] + old(Content())[old(sp) - attr.shadow * size..]
        else
          old(Content())
    {
      if attr.shadow != 0 && sp != local {
        var count := attr.shadow * size;
        var args := stack[sp - count..sp];
        assert args == Content()[sp - count..];
        Write(local, args);
        assert stack[..local + count] == old(stack[..local]) + args;
        sp := local + count;
      }
      closure := Null();
      local := fp + FrameSize();
      pc := entry;
    }

    // RESTORE
    method Restore(ghost below: Bytes, ghost slot: Reg, ghost c: Caller, ghost above: Bytes, ghost result: Bytes)
      requires Valid() && fp == |below| && c.attr.Ok() && |c.closure| == pointer && |result| == size
      requires Content() == below + Saved(slot, c.local, c.fp, c.attr, c.closure) + above + result
      modifies this`sp, this`fp, this`local, this`pc, this`closure, this`attr, stack
      ensures Valid() && Content() == below + result
      ensures pc == slot && local == c.local && fp == RestoredFp(c.fp) && attr == c.attr && closure == c.closure
    {
      hide Saved;
      ghost var frame := below + Saved(slot, c.local, c.fp, c.attr, c.closure);
      var obj := Pop(size, frame + above, result);
      Drop(fp + FrameSize(), frame, above);
      PopRegisters(below, slot, c);
      var ok := Push(obj);
    }

    method PopRegisters(ghost below: Bytes, ghost slot: Reg, ghost c: Caller)
      requires Valid() && c.attr.Ok() && |c.closure| == pointer
      requires Content() == below + Saved(slot, c.local, c.fp, c.attr, c.closure)
      modifies this`sp, this`fp, this`local, this`pc, this`closure, this`attr
      ensures Valid() && Content() == below
      ensures pc == slot && local == c.local && fp == RestoredFp(c.fp) && attr == c.attr && closure == c.closure
    {
      hide Saved, Encode, Decode;
      ghost var s1 := below + Encode(slot);
      ghost var s2 := s1 + Encode(c.local);
      ghost var s3 := s2 + Encode(c.fp);
      ghost var s4 := s3 + [c.attr.All()];
      FramePushed(below, slot, c.local, c.fp, c.attr, c.closure);
      closure := Pop(pointer, s4, c.closure);
      var all := Pop(1, s3, [c.attr.All()]);
      attr := FromAll(all[0]);
      var word := Pop(2, s2, Encode(c.fp));
      fp := RestoredFp(Decode(word));
      word := Pop(2, s1, Encode(c.local));
      local := Decode(word);
      word := Pop(2, below, Encode(slot));
      pc := Decode(word);
    }

    // Setting the stack pointer back.
    method Drop(to: Reg, ghost kept: Bytes, ghost above: Bytes)
      requires Valid() && to == |kept| && Content() == kept + above
      modifies this`sp
      ensures Valid() && Content() == kept && sp == to
    {
      assert Content()[..to] == kept;
      sp := to;
    }

    // The running procedure finds its arguments at local.
    ghost predicate Frame(env: seq<Bytes>)
      requires sp <= stack.Length
      reads this`sp, this`local, this`closure, stack
    {
      Sized(env, size) && (env != [] ==> closure == Null()) && Holds(Content(), local, Join(env))
    }

    // A body is running: below its caller's frame lies below, and slot is in
    // the place of the return address.
    ghost predicate Entered(below: Bytes, slot: Reg, c: Caller, env: seq<Bytes>)
      requires sp <= stack.Length
      reads this`sp, this`local, this`closure, this`fp, stack
    {
      && c.attr.Ok() && |c.closure| == pointer && closure == Null() && Frame(env)
      && fp == |below| && local == fp + FrameSize() <= sp
      && Content()[..local] == below + Saved(slot, c.local, c.fp, c.attr, c.closure)
    }

    // LOCAL, where no closure is active.
    method PushLocal(i: nat, ghost env: seq<Bytes>) returns (ok: bool)
      requires Valid() && Frame(env) && i < |env|
      modifies this`sp, stack
      ensures Valid() && ok == (old(sp) + size < stack.Length)
      ensures ok ==> Content() == old(Content()) + env[i]
    {
      JoinAt(env, size, i);
      assert env[i] in env;
      HoldsPart(Content(), local, Join(env), i * size, env[i]);
      ok := Push(Load(local + i * size, size, env[i]));
    }

    // FIX_PC on a whole frame; the next instruction is at retPc.
    method FixSlot(retPc: Reg, ghost below: Bytes, ghost slot: Reg, ghost c: Caller, ghost above: Bytes)
      requires Valid() && c.attr.Ok() && fp == |below|
      requires Content() == below + Saved(slot, c.local, c.fp, c.attr, c.closure) + above
      modifies this`pc, stack
      ensures Valid() && pc == retPc
      ensures Content() == below + Saved(if slot == UNSET then retPc else slot, c.local, c.fp, c.attr, c.closure) + above
    {
      hide Saved, Encode;
      ghost var filled := if slot == UNSET then retPc else slot;
      SlotFirst(below, slot, c.local, c.fp, c.attr, c.closure, above);
      SlotFirst(below, filled, c.local, c.fp, c.attr, c.closure, above);
      pc := retPc;
      FixPc(below, slot, Encode(c.local) + Encode(c.fp) + [c.attr.All()] + c.closure + above);
    }

    // CALL_PROCEDURE after a normal prelude and the arguments.
    method CallNormal(retPc: Reg, entry: Reg, ghost below: Bytes, ghost c: Caller, ghost env: seq<Bytes>)
      requires Valid() && c.attr.Ok() && |c.closure| == pointer && Sized(env, size) && attr.shadow == 0 && fp == |below|
      requires Content() == below + Saved(UNSET, c.local, c.fp, c.attr, c.closure) + Join(env)
      modifies this`sp, this`closure, this`local, this`pc, stack
      ensures Valid() && Entered(below, retPc, c, env) && sp == old(sp) == local + |Join(env)| && pc == entry
    {
      hide Encode, Join;
      FixSlot(retPc, below, UNSET, c, Join(env));
      ProcCall(entry);
      assert Content()[..local] == below + Saved(retPc, c.local, c.fp, c.attr, c.closure);
    }

    // CALL_PROCEDURE after the prelude of a tail call and the new arguments:
    // the frame stays where it was, with the new arguments for the old ones.
    method CallTail(retPc: Reg, entry: Reg, ghost below: Bytes, ghost slot: Reg, ghost c: Caller, ghost args: Bytes,
        ghost env: seq<Bytes>)
      requires Valid() && c.attr.Ok() && |c.closure| == pointer && Sized(env, size)
      requires fp == |below| && local == fp + FrameSize() && attr.shadow == |env| && |args| == |env| * size
      requires Content() == below + Saved(slot, c.local, c.fp, c.attr, c.closure) + args + Join(env)
      modifies this`sp, this`closure, this`local, this`pc, stack
      ensures Valid() && Entered(below, if slot == UNSET then retPc else slot, c, env)
      ensures local == old(local) && sp == local + |env| * size && pc == entry
    {
      hide Saved, Join;
      JoinLength(env, size);
      ghost var filled := if slot == UNSET then retPc else slot;
      ghost var frame := below + Saved(filled, c.local, c.fp, c.attr, c.closure);
      assert below + Saved(slot, c.local, c.fp, c.attr, c.closure) + args + Join(env)
          == below + Saved(slot, c.local, c.fp, c.attr, c.closure) + (args + Join(env));
      FixSlot(retPc, below, slot, c, args + Join(env));
      assert Content()[..local] == frame && Content()[local + |args|..] == Join(env);
      if |env| == 0 {
        assert Content() == frame + Join(env);
      }
      ProcCall(entry);
      assert Content() == frame + Join(env);
    }

    // The shadow field has five bits: with arity n the arguments move down by n
    // objects exactly when n is below 32.
    method CallTailOfAnyArity(entry: Reg, n: nat)
      requires Valid() && local == fp + FrameSize() && attr.shadow == n % 32 && sp == local + n * size + n * size
      modifies this`sp, this`closure, this`local, this`pc, stack
      ensures Valid() && local == old(local)
      ensures sp == local + n * size <==> n < 32
    {
      Spread(n, n % 32, size);
      ProcCall(entry);
    }

    lemma Spread(n: nat, k: nat, size: nat)
      requires 0 < size && k <= n
      ensures k * size <= n * size && (k * size == n * size <==> k == n) && (n * size == 0 <==> n == 0)
    {
    }

    // An action leaves its value on the stack and everything else as it was;
    // it succeeds exactly when what it needs fits.
    method RunAct(a: Act, ghost env: seq<Bytes>) returns (ok: bool)
      requires Valid() && Frame(env) && ActOk(a, |env|, size) && fp != UNSET
      modifies this`sp, this`fp, this`local, this`closure, this`attr, this`pc, stack
      ensures Valid() && ok == (old(sp) + Need(a, size, FrameSize()) < stack.Length)
      ensures ok ==> Content() == old(Content()) + Eval(a, env, size)
      ensures ok ==> fp == old(fp) && local == old(local) && closure == old(closure) && attr == old(attr)
      ensures ok ==> pc == PcAfter(a, old(pc))
      decreases a, 0
    {
      hide Saved, Join;
      match a
      case Const(obj) =>
        ok := Push(obj);
      case Local(i) =>
        ok := PushLocal(i, env);
      case Call(args, retPc, entry, body) =>
        ghost var below := Content();
        ghost var c := Caller(local, SavedFp(sp, fp), attr, closure);
        ok := SaveEnv();
        if ok {
          FrameStays(env, below);
          ok := RunArgs(args, env);
        }
        if ok {
          ghost var vals := EvalArgs(args, env, size);
          CallNormal(retPc, entry, below, c, vals);
          JoinLength(vals, size);
          ok := RunBody(body, below, retPc, c, vals, args.Count());
        }
    }

    // Content above does not disturb the arguments.
    lemma FrameStays(env: seq<Bytes>, before: Bytes)
      requires sp <= stack.Length && Sized(env, size) && (env != [] ==> closure == Null())
      requires Holds(before, local, Join(env)) && before <= Content()
      ensures Frame(env)
    {
      hide Join;
      assert Content()[..|before|] == before;
      assert Holds(before, local, Join(env)) && Holds(Content(), 0, before);
      HoldsPart(Content(), 0, before, local, Join(env));
    }

    method RunArgs(args: Args, ghost env: seq<Bytes>) returns (ok: bool)
      requires Valid() && Frame(env) && ArgsOk(args, |env|, size) && fp != UNSET
      modifies this`sp, this`fp, this`local, this`closure, this`attr, this`pc, stack
      ensures Valid() && ok == (old(sp) + NeedArgs(args, size, FrameSize()) < stack.Length)
      ensures ok ==> Content() == old(Content()) + Join(EvalArgs(args, env, size))
      ensures ok ==> fp == old(fp) && local == old(local) && closure == old(closure) && attr == old(attr)
      decreases args, 0
    {
      hide Saved, Join, Holds;
      ghost var start := Content();
      match args
      case NoArgs =>
        ok := true;
        JoinNone();
      case More(before, last) =>
        ok := RunArgs(before, env);
        if ok {
          ghost var vals := EvalArgs(before, env, size);
          JoinLength(vals, size);
          FrameStays(env, start);
          ok := RunAct(last, env);
          JoinMore(vals, Eval(last, env, size));
        }
    }

    // Nor does it disturb the frame.
    lemma EnteredStays(below: Bytes, slot: Reg, c: Caller, env: seq<Bytes>, before: Bytes)
      requires sp <= stack.Length && before <= Content() && c.attr.Ok() && |c.closure| == pointer
      requires Sized(env, size) && closure == Null() && fp == |below| && local == fp + FrameSize() <= |before|
      requires Holds(before, local, Join(env))
      requires before[..local] == below + Saved(slot, c.local, c.fp, c.attr, c.closure)
      ensures Entered(below, slot, c, env)
    {
      hide Saved, Join;
      FrameStays(env, before);
      assert Content()[..local] == before[..local];
    }

    // The result of a body, and its restore.
    method Leave(result: Act, ghost below: Bytes, ghost slot: Reg, ghost c: Caller, ghost env: seq<Bytes>)
      returns (ok: bool)
      requires Valid() && Entered(below, slot, c, env) && ActOk(result, |env|, size)
      modifies this`sp, this`fp, this`local, this`closure, this`attr, this`pc, stack
      ensures Valid() && ok == (old(sp) + Need(result, size, FrameSize()) < stack.Length)
      ensures ok ==> Content() == below + Eval(result, env, size) && pc == slot
      ensures ok ==> local == c.local && fp == RestoredFp(c.fp) && attr == c.attr && closure == c.closure
      decreases result, 1
    {
      hide Saved, Join, Eval, Holds;
      ghost var frame := below + Saved(slot, c.local, c.fp, c.attr, c.closure);
      ghost var above := Content()[local..];
      assert Content() == frame + above;
      ok := RunAct(result, env);
      if ok {
        Restore(below, slot, c, above, Eval(result, env, size));
      }
    }

    method StartRound(arity: nat, ghost below: Bytes, ghost slot: Reg, ghost c: Caller, ghost env: seq<Bytes>)
      requires Valid() && Entered(below, slot, c, env) && arity == |env| <= 31
      modifies this`sp, this`attr
      ensures Valid() && Frame(env) && attr.shadow == arity && sp == local + arity * size
      ensures Content() == below + Saved(slot, c.local, c.fp, c.attr, c.closure) + Join(env)
    {
      hide Saved, Join;
      JoinLength(env, size);
      assert Content()[..local + |Join(env)|] == Content()[..local] + Content()[local..local + |Join(env)|];
      SaveEnvTailRec(arity);
      assert Content()[local..] == Join(env);
    }

    // One tail call: on entry of the next round the stack holds the same
    // frame and exactly the new arguments.
    method NextRound(args: Args, retPc: Reg, entry: Reg, ghost below: Bytes, ghost slot: Reg, ghost c: Caller,
        ghost env: seq<Bytes>)
      returns (ok: bool)
      requires Valid() && Entered(below, slot, c, env)
      requires args.Count() == |env| <= 31 && ArgsOk(args, |env|, size)
      modifies this`sp, this`fp, this`local, this`closure, this`attr, this`pc, stack
      ensures Valid() && ok == (old(local) + |env| * size + NeedArgs(args, size, FrameSize()) < stack.Length)
      ensures ok ==> Entered(below, if slot == UNSET then retPc else slot, c, EvalArgs(args, env, size)) && pc == entry
      ensures ok ==> fp == old(fp) && local == old(local) && sp == local + |env| * size
      decreases args, 1
    {
      hide Saved, Join, EvalArgs, Holds;
      JoinLength(env, size);
      StartRound(args.Count(), below, slot, c, env);
      ok := RunArgs(args, env);
      if ok {
        CallTail(retPc, entry, below, slot, c, Join(env), EvalArgs(args, env, size));
      }
    }

    // A body runs, through any number of tail calls, until it restores.
    method RunBody(b: Body, ghost below: Bytes, ghost slot: Reg, ghost c: Caller, ghost env: seq<Bytes>, ghost high: nat)
      returns (ok: bool)
      requires Valid() && Entered(below, slot, c, env) && BodyOk(b, |env|, size)
      requires sp == local + high * size
      modifies this`sp, this`fp, this`local, this`closure, this`attr, this`pc, stack
      ensures Valid() && ok == (old(local) + NeedBody(b, |env|, high, size, FrameSize()) < stack.Length)
      ensures ok ==> Content() == below + EvalBody(b, env, size) && pc == FinalPc(b, slot)
      ensures ok ==> local == c.local && fp == RestoredFp(c.fp) && attr == c.attr && closure == c.closure
      decreases b
    {
      hide Saved, Join, Holds;
      ghost var before := Content();
      match b
      case Then(first, rest) =>
        ok := RunAct(first, env);
        if ok {
          EnteredStays(below, slot, c, env, before);
          OneMore(high, size);
          ok := RunBody(rest, below, slot, c, env, high + 1);
        }
      case Return(result) =>
        ok := Leave(result, below, slot, c, env);
      case TailRec(args, retPc, entry, next) =>
        ok := NextRound(args, retPc, entry, below, slot, c, env);
        if ok {
          ok := RunBody(next, below, if slot == UNSET then retPc else slot, c, EvalArgs(args, env, size), |env|);
        }
    }
  }
}
