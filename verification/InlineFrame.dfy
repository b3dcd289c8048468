/** Calls: the full way, with a stack frame of its own for the callee, and the fast way, in which the callee
    runs on the free part of the caller's evaluation stack. */
module InlineFrame {

  datatype Value = Value(dataType: nat, data: int)

  /** special: the method needs processing that the fast way does not do (constructors, synchronized
      methods and the like, but not exception handlers). */
  datatype Method = Method(id: nat, numArgs: nat, numLocals: nat, lengthEvalStack: nat, returnsValue: bool,
                           special: bool, isStatic: bool, native: bool, hasByteCode: bool, byteCode: int)

  datatype InlineBuffer = NoBuffer | Saved(ip: int, ipStart: int, locals: int, args: int, call: Method, evalStack: int, evalPos: int)

  /** The fields of a stack frame that a call touches; positions are addresses of value slots. */
  datatype Frame = Frame(call: Method, ip: int, ipStart: int, arguments: int, locals: int,
                         evalStack: int, evalStackPos: int, evalStackEnd: int,
                         inlineFrame: InlineBuffer, inlined: bool, inlineReturnsValue: bool, interpreted: bool)

  /** What both ways of calling share: the values of new locals, and the widening of small results. */
  datatype Runtime = Runtime(initialLocal: (Method, nat) -> Value, promote: Value -> Value)

  /** Slots [lo, hi) may differ, all others are the same. */
  ghost predicate SameBut(m: seq<Value>, m': seq<Value>, lo: int, hi: int) {
    |m'| == |m| && forall a {:trigger m'[a]} :: 0 <= a < |m| && !(lo <= a < hi) ==> m'[a] == m[a]
  }

  /** evalPos is the top of the caller's evaluation stack, with the arguments on top. */
  ghost predicate ReadyToCall(f: Frame, size: nat, evalPos: int, callee: Method) {
    && 0 <= f.evalStack && f.evalStack <= evalPos + 1 - callee.numArgs && evalPos < f.evalStackEnd <= size
    && f.interpreted && !f.inlined && !f.inlineReturnsValue
  }

  /** The fast way is open. */
  predicate CanInline(f: Frame, evalPos: int, callee: Method, bufferFree: bool) {
    && f.inlineFrame.NoBuffer?
    && f.evalStackEnd - evalPos > callee.numArgs + callee.numLocals + callee.lengthEvalStack + 2
    && f.interpreted && !callee.special && !callee.isStatic && !callee.native && callee.hasByteCode && bufferFree
  }

  // The result of a call for the caller.

  /** The caller's frame after the call: execution goes on behind the call, the arguments are popped, and the
      result, if there is one, is pushed. */
  function Returned(f: Frame, ip: int, evalPos: int, callee: Method, exception: bool): Frame {
    f.(ip := ip, evalStackPos := evalPos + 1 - callee.numArgs + if callee.returnsValue && !exception then 1 else 0)
  }

  /** The slots that count for the caller after the call. */
  ghost predicate LiveSlot(f: Frame, a: int) {
    f.evalStack <= a < f.evalStackPos || a < f.evalStack || a >= f.evalStackEnd
  }

  /** The memory the caller sees after the call: result is the promoted result. */
  ghost predicate SeenAfter(rt: Runtime, m: seq<Value>, f: Frame, evalPos: int, callee: Method, exception: bool, result: Value, f': Frame, m': seq<Value>) {
    && |m'| == |m|
    && (forall a {:trigger m'[a]} :: 0 <= a < |m| && LiveSlot(f', a) && !(callee.returnsValue && !exception && a == evalPos + 1 - callee.numArgs) ==> m'[a] == m[a])
    && (callee.returnsValue && !exception ==> 0 <= evalPos + 1 - callee.numArgs < |m| && m'[evalPos + 1 - callee.numArgs] == rt.promote(result))
  }

  // What a callee does.

  /** A method body as seen from outside: given arguments and initial locals it leaves values in its slots
      (the arguments, then the locals, then the evaluation stack) and depth values on its stack, the topmost
      of which is the result. */
  datatype Body = Body(slot: (seq<Value>, seq<Value>, nat) -> Value, result: (seq<Value>, seq<Value>) -> Value, depth: nat)

  function InitialLocals(rt: Runtime, callee: Method): seq<Value> {
    seq(callee.numLocals, i requires i >= 0 => rt.initialLocal(callee, i))
  }

  ghost function ArgumentsAt(m: seq<Value>, evalPos: int, callee: Method): seq<Value>
    requires 0 <= evalPos + 1 - callee.numArgs && evalPos < |m|
  {
    m[evalPos + 1 - callee.numArgs..evalPos + 1]
  }

  ghost predicate BodyFits(callee: Method, body: Body) {
    body.depth <= callee.lengthEvalStack && (callee.returnsValue ==> body.depth > 0)
  }

  /** The effect of a whole call on the caller. */
  ghost predicate Called(rt: Runtime, m: seq<Value>, f: Frame, ip: int, evalPos: int, callee: Method, body: Body, exception: bool, f': Frame, m': seq<Value>) {
    && 0 <= evalPos + 1 - callee.numArgs && evalPos < |m|
    && f' == Returned(f, ip, evalPos, callee, exception)
    && SeenAfter(rt, m, f, evalPos, callee, exception, body.result(ArgumentsAt(m, evalPos, callee), InitialLocals(rt, callee)), f', m')
  }

  class StackFrame {
    const rt: Runtime
    const memory: array<Value>
    var f: Frame
    /** Buffers for saved frames that are free. */
    var buffers: nat

    /** Starts an inlined call. ip' and evalPos' are where the interpreter goes on. */
    method PushInline(ip: int, evalPos: int, callee: Method, pThis: int) returns (ok: bool, ip': int, evalPos': int)
      requires ReadyToCall(f, memory.Length, evalPos, callee) && pThis == evalPos + 1 - callee.numArgs
      modifies this`f, this`buffers, memory
      ensures ok <==> CanInline(old(f), evalPos, callee, old(buffers) > 0)
      ensures !ok ==> f == old(f) && buffers == old(buffers) && memory[..] == old(memory[..]) && ip' == ip && evalPos' == evalPos
      ensures ok ==> buffers == old(buffers) - 1 && InCallee(old(f), ip, evalPos, callee, f, evalPos') && ip' == f.ip == callee.byteCode
      ensures ok ==> SameBut(old(memory[..]), memory[..], f.locals, f.locals + callee.numLocals)
      ensures ok ==> forall i {:trigger rt.initialLocal(callee, i)} :: 0 <= i < callee.numLocals ==> memory[..][f.locals + i] == rt.initialLocal(callee, i)
    {
      ip', evalPos' := ip, evalPos;
      if !f.inlineFrame.NoBuffer? || f.evalStackEnd - evalPos <= callee.numArgs + callee.numLocals + callee.lengthEvalStack + 2
        || !f.interpreted || callee.special || callee.isStatic || callee.native || !callee.hasByteCode || buffers == 0
      {
        return false, ip', evalPos';
      }
      buffers := buffers - 1;
      f := f.(inlineFrame := Saved(ip, f.ipStart, f.locals, f.arguments, f.call, f.evalStack, pThis));
      evalPos' := evalPos + 1;
      ip' := callee.byteCode;
      f := f.(arguments := pThis, locals := f.evalStackEnd - callee.numLocals, call := callee);
      f := f.(evalStackEnd := f.locals, evalStack := evalPos', evalStackPos := evalPos' + 1, ipStart := ip', ip := ip');
      InitializeLocals(f.locals, callee);
      f := f.(inlined := true);
      if callee.returnsValue {
        f := f.(inlineReturnsValue := true);
      }
      ok := true;
    }

    method InitializeLocals(locals: int, callee: Method)
      requires 0 <= locals && locals + callee.numLocals <= memory.Length
      modifies memory
      ensures SameBut(old(memory[..]), memory[..], locals, locals + callee.numLocals)
      ensures forall i {:trigger rt.initialLocal(callee, i)} :: 0 <= i < callee.numLocals ==> memory[..][locals + i] == rt.initialLocal(callee, i)
    {
      var i := 0;
      while i < callee.numLocals
        invariant i <= callee.numLocals
        invariant forall a :: 0 <= a < memory.Length && !(locals <= a < locals + i) ==> memory[a] == old(memory[a])
        invariant forall j {:trigger rt.initialLocal(callee, j)} :: 0 <= j < i ==> memory[locals + j] == rt.initialLocal(callee, j)
      {
        memory[locals + i] := rt.initialLocal(callee, i);
        i := i + 1;
      }
    }

    /** Puts the caller's fields back. */
    method RestoreFromInlineStack()
      requires f.inlineFrame.Saved?
      modifies this`f
      ensures f == old(f).(arguments := old(f).inlineFrame.args, locals := old(f).inlineFrame.locals,
                           evalStackEnd := old(f).evalStackEnd + old(f).call.numLocals, call := old(f).inlineFrame.call,
                           ip := old(f).inlineFrame.ip, ipStart := old(f).inlineFrame.ipStart,
                           evalStack := old(f).inlineFrame.evalStack, evalStackPos := old(f).inlineFrame.evalPos)
    {
      var saved := f.inlineFrame;
      f := f.(arguments := saved.args, locals := saved.locals);
      f := f.(evalStackEnd := f.evalStackEnd + f.call.numLocals);
      f := f.(call := saved.call, ip := saved.ip, ipStart := saved.ipStart, evalStack := saved.evalStack, evalStackPos := saved.evalPos);
    }

    /** Ends an inlined call; evalStackPos is the slot of the result. caller, ip, evalPos and m are the
        caller's frame, return address, stack top and memory at the time of the call. */
    method PopInline(exception: bool, ghost caller: Frame, ghost ip: int, ghost evalPos: int, ghost m: seq<Value>)
      requires ReadyToCall(caller, memory.Length, evalPos, f.call) && CanInline(caller, evalPos, f.call, true)
      requires InCallee(caller, ip, evalPos, f.call, f.(evalStackPos := evalPos + 2, ip := f.call.byteCode), evalPos + 1)
      requires SameBut(m, memory[..], evalPos + 1 - f.call.numArgs, caller.evalStackEnd)
      requires f.call.returnsValue && !exception ==> f.evalStack < f.evalStackPos < f.evalStackEnd
      modifies this`f, this`buffers, memory
      ensures f == Returned(caller, ip, evalPos, old(f).call, exception) && buffers == old(buffers) + 1
      ensures old(f).call.returnsValue && !exception ==> 0 <= old(f).evalStackPos < memory.Length
      ensures SeenAfter(rt, m, caller, evalPos, old(f).call, exception,
                        if old(f).call.returnsValue && !exception then old(memory[..])[old(f).evalStackPos] else Value(0, 0), f, memory[..])
    {
      var src := f.evalStackPos;
      RestoreFromInlineStack();
      if f.inlineReturnsValue && !exception {
        var dst := f.evalStackPos;
        f := f.(evalStackPos := f.evalStackPos + 1);
        memory[dst] := memory[src];
        memory[dst] := rt.promote(memory[dst]);
      }
      buffers := buffers + 1;
      f := f.(inlineFrame := NoBuffer, inlined := false, inlineReturnsValue := false);
    }

    /** Starts a call in a frame of its own: extension holds the callee's locals and evaluation stack. */
    method Push(ip: int, evalPos: int, callee: Method) returns (frame: Frame, extension: array<Value>)
      requires ReadyToCall(f, memory.Length, evalPos, callee)
      modifies this`f
      ensures f == old(f).(ip := ip, evalStackPos := evalPos + 1 - callee.numArgs)
      ensures fresh(extension) && frame.call == callee && frame.arguments == evalPos + 1 - callee.numArgs
      ensures frame.locals == 0 && frame.evalStack == frame.evalStackPos == callee.numLocals
      ensures frame.evalStackEnd == extension.Length >= callee.numLocals + callee.lengthEvalStack + OVERHEAD
      ensures frame.ip == frame.ipStart == callee.byteCode && frame.interpreted == !callee.native
      ensures frame.inlineFrame == NoBuffer && !frame.inlined && !frame.inlineReturnsValue
      ensures forall i {:trigger rt.initialLocal(callee, i)} :: 0 <= i < callee.numLocals ==> extension[i] == rt.initialLocal(callee, i)
    {
      f := f.(evalStackPos := evalPos + 1, ip := ip);
      var sizeEvalStack := callee.lengthEvalStack + OVERHEAD + 1;
      var memorySize := callee.numLocals + sizeEvalStack;
      if memorySize < MINIMUM_STACK {
        sizeEvalStack := sizeEvalStack + MINIMUM_STACK - memorySize;
        memorySize := MINIMUM_STACK;
      }
      extension := new Value[memorySize](i => if 0 <= i < callee.numLocals then rt.initialLocal(callee, i) else Value(0, 0));
      frame := Frame(callee, callee.byteCode, callee.byteCode, f.evalStackPos - callee.numArgs, 0, callee.numLocals,
                     callee.numLocals, callee.numLocals + sizeEvalStack, NoBuffer, false, false, !callee.native);
      f := f.(evalStackPos := frame.arguments);
    }

    /** Ends a call in a frame of its own. caller, ip, evalPos and m are as for PopInline. */
    method Pop(frame: Frame, extension: array<Value>, exception: bool, ghost caller: Frame, ghost ip: int, ghost evalPos: int, ghost m: seq<Value>)
      requires ReadyToCall(caller, memory.Length, evalPos, frame.call) && extension != memory
      requires f == caller.(ip := ip, evalStackPos := evalPos + 1 - frame.call.numArgs)
      requires SameBut(m, memory[..], evalPos + 1 - frame.call.numArgs, evalPos + 1)
      requires frame.call.returnsValue && !exception ==> 0 <= frame.evalStack < frame.evalStackPos <= frame.evalStackEnd == extension.Length
      requires frame.call.returnsValue && !exception ==> f.evalStackPos < f.evalStackEnd
      modifies this`f, memory
      ensures f == Returned(caller, ip, evalPos, frame.call, exception)
      ensures SeenAfter(rt, m, caller, evalPos, frame.call, exception,
                        if frame.call.returnsValue && !exception then extension[frame.evalStackPos - 1] else Value(0, 0), f, memory[..])
    {
      if frame.call.returnsValue && !exception {
        var src := frame.evalStackPos - 1;
        var dst := f.evalStackPos;
        f := f.(evalStackPos := f.evalStackPos + 1);
        memory[dst] := extension[src];
        memory[dst] := rt.promote(memory[dst]);
      }
    }

    /** The callee runs inlined: on the slots of its arguments, on its locals and on the stack between. */
    method ExecuteInlined(body: Body, ghost evalPos: int, ghost callerEnd: int)
      requires f.inlined && BodyFits(f.call, body) && 0 <= f.arguments == evalPos + 1 - f.call.numArgs
      requires f.evalStack == evalPos + 1 && f.evalStack + f.call.lengthEvalStack < f.evalStackEnd == f.locals
      requires f.locals + f.call.numLocals == callerEnd <= memory.Length
      requires forall i {:trigger rt.initialLocal(f.call, i)} :: 0 <= i < f.call.numLocals ==> memory[..][f.locals + i] == rt.initialLocal(f.call, i)
      modifies this`f, memory
      ensures f == old(f).(evalStackPos := old(f).evalStack + body.depth)
      ensures SameBut(old(memory[..]), memory[..], f.arguments, callerEnd)
      ensures f.call.returnsValue ==> memory[..][f.evalStackPos] == body.result(ArgumentsAt(old(memory[..]), evalPos, f.call), InitialLocals(rt, f.call))
    {
      ghost var m := memory[..];
      var arguments := memory[f.arguments..f.arguments + f.call.numArgs];
      var locals := memory[f.locals..f.locals + f.call.numLocals];
      assert locals == InitialLocals(rt, f.call);
      var n, start := f.call.numArgs + (f.evalStackEnd - f.evalStack) + f.call.numLocals, f.arguments;
      var i := 0;
      while i < n
        invariant 0 <= i <= n && f == old(f)
        invariant forall a :: 0 <= a < memory.Length && !(start <= a < start + i) ==> memory[a] == m[a]
      {
        memory[start + i] := body.slot(arguments, locals, i);
        i := i + 1;
      }
      f := f.(evalStackPos := f.evalStack + body.depth);
      if f.call.returnsValue {
        memory[f.evalStackPos] := body.result(arguments, locals);
      }
    }

    /** The callee runs in its own frame: on its arguments, which are the caller's slots, and on its extension. */
    method ExecuteFull(frame: Frame, extension: array<Value>, body: Body, ghost evalPos: int) returns (frame': Frame)
      requires BodyFits(frame.call, body) && extension != memory
      requires 0 <= frame.arguments == evalPos + 1 - frame.call.numArgs && evalPos < memory.Length
      requires frame.locals == 0 && frame.evalStack == frame.evalStackPos == frame.call.numLocals
      requires frame.evalStackEnd == extension.Length >= frame.call.numLocals + frame.call.lengthEvalStack
      requires forall i {:trigger rt.initialLocal(frame.call, i)} :: 0 <= i < frame.call.numLocals ==> extension[i] == rt.initialLocal(frame.call, i)
      modifies memory, extension
      ensures frame' == frame.(evalStackPos := frame.evalStack + body.depth)
      ensures SameBut(old(memory[..]), memory[..], frame.arguments, evalPos + 1)
      ensures frame.call.returnsValue ==>
        extension[frame'.evalStackPos - 1] == body.result(ArgumentsAt(old(memory[..]), evalPos, frame.call), InitialLocals(rt, frame.call))
    {
      ghost var m := memory[..];
      var arguments := memory[frame.arguments..frame.arguments + frame.call.numArgs];
      var locals := extension[..frame.call.numLocals];
      assert locals == InitialLocals(rt, frame.call);
      var i := 0;
      while i < frame.call.numArgs
        invariant 0 <= i <= frame.call.numArgs
        invariant forall a :: 0 <= a < memory.Length && !(frame.arguments <= a < frame.arguments + i) ==> memory[a] == m[a]
      {
        memory[frame.arguments + i] := body.slot(arguments, locals, i);
        i := i + 1;
      }
      i := 0;
      while i < extension.Length
        invariant 0 <= i <= extension.Length
        invariant forall a :: 0 <= a < memory.Length && !(frame.arguments <= a <= evalPos) ==> memory[a] == m[a]
      {
        extension[i] := body.slot(arguments, locals, i + frame.call.numArgs);
        i := i + 1;
      }
      frame' := frame.(evalStackPos := frame.evalStack + body.depth);
      if frame.call.returnsValue {
        extension[frame'.evalStackPos - 1] := body.result(arguments, locals);
      }
    }

    /** A whole call, the fast way; ok is false, and nothing has happened, if that way is not open. */
    method CallInlined(ip: int, evalPos: int, callee: Method, body: Body, exception: bool) returns (ok: bool)
      requires ReadyToCall(f, memory.Length, evalPos, callee) && BodyFits(callee, body)
      modifies this`f, this`buffers, memory
      ensures ok <==> CanInline(old(f), evalPos, callee, old(buffers) > 0)
      ensures buffers == old(buffers) && (!ok ==> f == old(f) && memory[..] == old(memory[..]))
      ensures ok ==> Called(rt, old(memory[..]), old(f), ip, evalPos, callee, body, exception, f, memory[..])
      ensures ok ==> f == old(f).(ip := ip, evalStackPos := evalPos - callee.numArgs + if callee.returnsValue && !exception then 2 else 1)
    {
      ghost var caller, m := f, memory[..];
      var ip', evalPos';
      ok, ip', evalPos' := PushInline(ip, evalPos, callee, evalPos + 1 - callee.numArgs);
      if ok {
        ghost var m1 := memory[..];
        assert ArgumentsAt(m1, evalPos, callee) == ArgumentsAt(m, evalPos, callee);
        ExecuteInlined(body, evalPos, caller.evalStackEnd);
        PopInline(exception, caller, ip, evalPos, m);
      }
    }

    /** A whole call, the full way. */
    method CallFull(ip: int, evalPos: int, callee: Method, body: Body, exception: bool)
      requires ReadyToCall(f, memory.Length, evalPos, callee) && BodyFits(callee, body)
      requires callee.returnsValue ==> callee.numArgs > 0 || evalPos + 1 < f.evalStackEnd
      modifies this`f, memory
      ensures Called(rt, old(memory[..]), old(f), ip, evalPos, callee, body, exception, f, memory[..])
      ensures f == old(f).(ip := ip, evalStackPos := evalPos - callee.numArgs + if callee.returnsValue && !exception then 2 else 1)
    {
      ghost var caller, m := f, memory[..];
      var frame, extension := Push(ip, evalPos, callee);
      frame := ExecuteFull(frame, extension, body, evalPos);
      Pop(frame, extension, exception, caller, ip, evalPos, m);
    }
  }

  const OVERHEAD: nat := 2
  const MINIMUM_STACK: nat := 10

  /** The frame while an inlined callee runs. */
  ghost predicate InCallee(caller: Frame, ip: int, evalPos: int, callee: Method, f: Frame, evalPos': int) {
    && evalPos' == evalPos + 1
    && f == Frame(callee, callee.byteCode, callee.byteCode, evalPos + 1 - callee.numArgs, caller.evalStackEnd - callee.numLocals,
                  evalPos + 1, evalPos + 2, caller.evalStackEnd - callee.numLocals,
                  Saved(ip, caller.ipStart, caller.locals, caller.arguments, caller.call, caller.evalStack, evalPos + 1 - callee.numArgs),
                  true, callee.returnsValue, true)
  }

  /** Both ways of calling leave the same to the caller: the same frame, and the same values in all slots that
      still count. */
  lemma InlineEqualsFull(rt: Runtime, m: seq<Value>, caller: Frame, ip: int, evalPos: int, callee: Method, body: Body, exception: bool,
                         f1: Frame, m1: seq<Value>, f2: Frame, m2: seq<Value>)
    requires Called(rt, m, caller, ip, evalPos, callee, body, exception, f1, m1)
    requires Called(rt, m, caller, ip, evalPos, callee, body, exception, f2, m2)
    ensures f1 == f2 && |m1| == |m2|
    ensures forall a {:trigger m1[a]} {:trigger m2[a]} :: 0 <= a < |m| && LiveSlot(f1, a) ==> m1[a] == m2[a]
  {
    forall a {:trigger m1[a]} {:trigger m2[a]} | 0 <= a < |m| && LiveSlot(f1, a) ensures m1[a] == m2[a] {
      if !(callee.returnsValue && !exception && a == evalPos + 1 - callee.numArgs) {
        assert m1[a] == m[a] && m2[a] == m[a];
      }
    }
  }

  /** Every value an inlined callee can have on its evaluation stack lies above all of the caller's slots in
      use and below the callee's locals, and those end where the caller's stack ends. */
  lemma CalleeFits(caller: Frame, ip: int, evalPos: int, callee: Method, f: Frame, size: nat, depth: nat)
    requires ReadyToCall(caller, size, evalPos, callee) && CanInline(caller, evalPos, callee, true)
    requires InCallee(caller, ip, evalPos, callee, f, evalPos + 1)
    requires 1 <= depth <= callee.lengthEvalStack
    ensures evalPos < f.evalStack <= evalPos + 1 + depth < f.evalStackEnd == f.locals
    ensures f.locals + callee.numLocals == caller.evalStackEnd
    ensures f.arguments + callee.numArgs == evalPos + 1
  {
  }
}
