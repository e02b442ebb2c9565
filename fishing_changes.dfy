/**
 * The fishing patches: finding the compiler-generated coroutine that
 * `FishingController.FinishFishing` starts, rewriting that coroutine's
 * waits, and the Harmony prefix that completes the fishing minigame.
 *
 * A method body is a sequence of instructions, each an opcode and the text
 * `Instruction.ToString()` gives for it. The IL manipulation API (MonoMod's
 * `ILContext` and `ILCursor`) is modelled as two classes over that sequence.
 */
module FishingChanges {
  import opened Common
  import opened Strings

  // ---------------------------------------------------------------------
  // Instructions
  // ---------------------------------------------------------------------

  datatype OpCode = Call | Callvirt | Ldsfld | Other(name: string)

  /**
   * An instruction of a method body; `Replacement` is what `EmitDelegate`
   * inserts (a call of the delegate that builds the new wait).
   */
  datatype Instr = Instr(op: OpCode, text: string) | Replacement

  /** The call that starts the fishing coroutine: a `call` of a FishingController method taking (Vector3, bool) and returning IEnumerator. */
  predicate IsDynamicMethodCall(x: Instr)
  {
    && x.Instr? && x.op == Call
    && Contains(x.text, "System.Collections.IEnumerator")
    && Contains(x.text, "FishingController::")
    && Contains(x.text, "(UnityEngine.Vector3,System.Boolean)")
  }

  /** The load of the shared 1.5-second wait: an `ldsfld` of `CommonReferences::wait1_5` of type WaitForSeconds. */
  predicate IsWaitLoad(x: Instr)
  {
    && x.Instr? && x.op == Ldsfld
    && Contains(x.text, "UnityEngine.WaitForSeconds")
    && Contains(x.text, "CommonReferences::wait1_5")
  }

  /** The method name in an instruction's text: the second "::"-separated part, up to its first "(". */
  function ExtractName(text: string): string
    requires Contains(text, "::")
  {
    Split(Split(text, "::")[1], "(")[0]
  }

  /** A text holding "FishingController::" holds "::". */
  lemma ContainsSeparator(text: string)
    requires Contains(text, "FishingController::")
    ensures Contains(text, "::")
  {
    var i := IndexOf(text, "FishingController::").value;
    assert text[i + 17..i + 19] == text[i..i + 19][17..19];
    assert Occurs(text, "::", i + 17);
    ContainsIff(text, "::");
  }

  /** No "::" in `s`. */
  predicate NoSeparator(s: string)
  {
    forall j :: 0 <= j < |s| ==> !Occurs(s, "::", j)
  }

  /**
   * The name is read back from a text shaped like `<prefix>::<name>(<rest>`:
   * the prefix holds no "::" and does not end in ':', and the name holds
   * neither "::" nor "(".
   */
  lemma ExtractNameOf(prefix: string, name: string, rest: string)
    requires NoSeparator(prefix) && (prefix == [] || prefix[|prefix| - 1] != ':')
    requires NoSeparator(name) && '(' !in name
    ensures Contains(prefix + "::" + name + "(" + rest, "::")
    ensures ExtractName(prefix + "::" + name + "(" + rest) == name
  {
    var text := prefix + "::" + name + "(" + rest;
    var tail := name + "(" + rest;
    assert text == prefix + "::" + tail;
    FirstSeparator(prefix, tail);
    SplitSecond(text, "::");
    assert text[|prefix| + 2..] == tail;
    var part := Split(tail, "::")[0];
    NameThenParen(name, rest);
    assert part[..|name| + 1] == name + "(";
    FirstParen(name, part);
  }

  /** In `prefix + "::" + tail`, the first "::" is the one after the prefix. */
  lemma FirstSeparator(prefix: string, tail: string)
    requires NoSeparator(prefix) && (prefix == [] || prefix[|prefix| - 1] != ':')
    ensures IndexOf(prefix + "::" + tail, "::") == Some(|prefix|)
  {
    var text := prefix + "::" + tail;
    assert Occurs(text, "::", |prefix|) by { assert text[|prefix|..|prefix| + 2] == "::"; }
    forall j | 0 <= j < |prefix| ensures !Occurs(text, "::", j) {
      if j + 2 <= |prefix| {
        assert text[j..j + 2] == prefix[j..j + 2];
        assert !Occurs(prefix, "::", j);
      } else {
        assert text[j] == prefix[|prefix| - 1];
      }
    }
    FirstOccurrence(text, "::", |prefix|);
  }

  /** The part of `name + "(" + rest` before its first "::" still starts with the name and the parenthesis. */
  lemma NameThenParen(name: string, rest: string)
    requires NoSeparator(name) && '(' !in name
    ensures |name| + 1 <= |Split(name + "(" + rest, "::")[0]|
    ensures Split(name + "(" + rest, "::")[0][..|name| + 1] == name + "("
  {
    var tail := name + "(" + rest;
    var part := Split(tail, "::")[0];
    forall j | 0 <= j <= |name| ensures !Occurs(tail, "::", j) {
      if j + 2 <= |name| {
        assert tail[j..j + 2] == name[j..j + 2];
        assert !Occurs(name, "::", j);
      } else if j + 2 <= |tail| {
        assert tail[j..j + 2][|name| - j] == tail[|name|] == '(';
        assert tail[j..j + 2] != "::";
      }
    }
    match IndexOf(tail, "::")
    case None =>
    case Some(k) =>
      assert part == tail[..k];
  }

  /** A text that starts with `name + "("`, where the name holds no "(", splits at "(" into the name first. */
  lemma FirstParen(name: string, part: string)
    requires '(' !in name
    requires |name| + 1 <= |part| && part[..|name| + 1] == name + "("
    ensures Split(part, "(")[0] == name
  {
    ParenAfterName(name, part);
    SplitFirst(part, "(", |name|);
    assert part[..|name|] == part[..|name| + 1][..|name|];
  }

  /** In such a text, the first "(" is the one right after the name. */
  lemma ParenAfterName(name: string, part: string)
    requires '(' !in name
    requires |name| + 1 <= |part| && part[..|name| + 1] == name + "("
    ensures IndexOf(part, "(") == Some(|name|)
  {
    assert Occurs(part, "(", |name|) by { assert part[|name|..|name| + 1] == "("; }
    assert part[..|name|] == name by { assert part[..|name|] == part[..|name| + 1][..|name|]; }
    forall j | 0 <= j < |name| ensures !Occurs(part, "(", j) {
      assert part[j..j + 1][0] == part[..|name|][j] == name[j];
    }
    FirstOccurrence(part, "(", |name|);
  }

  // ---------------------------------------------------------------------
  // Searching a body: ILCursor.TryGotoNext
  // ---------------------------------------------------------------------

  /** The first position at or after `from` whose instruction satisfies `p`. */
  function FindNext(body: seq<Instr>, from: nat, p: Instr -> bool): (r: Option<nat>)
    requires from <= |body|
    ensures r.Some? ==> from <= r.value < |body| && p(body[r.value])
    ensures r.Some? ==> forall j :: from <= j < r.value ==> !p(body[j])
    ensures r.None? ==> forall j :: from <= j < |body| ==> !p(body[j])
    decreases |body| - from
  {
    if from == |body| then None
    else if p(body[from]) then Some(from)
    else FindNext(body, from + 1, p)
  }

  /** The name of the first coroutine call of a body, or "" when it has none. */
  function DynamicMethodName(body: seq<Instr>): string
  {
    match FindNext(body, 0, IsDynamicMethodCall)
    case None => ""
    case Some(i) =>
      ContainsSeparator(body[i].text);
      ExtractName(body[i].text)
  }

  /** The first qualifying instruction names the method, whatever follows it. */
  lemma FirstCallWins(before: seq<Instr>, x: Instr, after: seq<Instr>)
    requires forall j :: 0 <= j < |before| ==> !IsDynamicMethodCall(before[j])
    requires IsDynamicMethodCall(x)
    ensures Contains(x.text, "::")
    ensures DynamicMethodName(before + [x] + after) == ExtractName(x.text)
  {
    var body := before + [x] + after;
    ContainsSeparator(x.text);
    assert body[|before|] == x;
    assert forall j :: 0 <= j < |before| ==> body[j] == before[j];
    var r := FindNext(body, 0, IsDynamicMethodCall);
    assert r == Some(|before|);
  }

  /** A body with no qualifying instruction leaves the name empty. */
  lemma NoCallNoName(body: seq<Instr>)
    requires forall j :: 0 <= j < |body| ==> !IsDynamicMethodCall(body[j])
    ensures DynamicMethodName(body) == ""
  {
  }

  // ---------------------------------------------------------------------
  // Rewriting the waits
  // ---------------------------------------------------------------------

  /** How many instructions of `body` satisfy `p`. */
  function Count(body: seq<Instr>, p: Instr -> bool): nat
  {
    if body == [] then 0 else Count(body[..|body| - 1], p) + (if p(body[|body| - 1]) then 1 else 0)
  }

  /**
   * One attempt: the first instruction at or after `from` satisfying `p`
   * is replaced and the next search starts just after it; when there is
   * none, the body and the search start stay as they are.
   */
  function Attempt(body: seq<Instr>, from: nat, p: Instr -> bool): (r: (seq<Instr>, nat))
    requires from <= |body|
    ensures |r.0| == |body| && r.1 <= |body|
  {
    match FindNext(body, from, p)
    case None => (body, from)
    case Some(i) => (body[i := Replacement], i + 1)
  }

  /** The body after `n` more attempts, the first of them searching from `from`. */
  function Rewrite(body: seq<Instr>, from: nat, n: nat, p: Instr -> bool): (r: seq<Instr>)
    requires from <= |body|
    ensures |r| == |body|
    decreases n
  {
    if n == 0 then body
    else
      var next := Attempt(body, from, p);
      Rewrite(next.0, next.1, n - 1, p)
  }

  /** The number of attempts `ChangeAnimationTime` makes. */
  const Attempts: nat := 3

  /**
   * What the attempts do to each position: an instruction at or after
   * `from` that satisfies `p`, with fewer than `n` such instructions
   * between `from` and it, becomes the replacement; every other
   * instruction stays where it was.
   */
  lemma {:induction false} RewriteAt(body: seq<Instr>, from: nat, n: nat, p: Instr -> bool, j: nat)
    requires from <= |body| && j < |body|
    ensures Rewrite(body, from, n, p)[j]
         == if from <= j && p(body[j]) && Count(body[from..j], p) < n then Replacement else body[j]
    decreases n, 1
  {
    if n > 0 {
      var r := FindNext(body, from, p);
      if r.None? {
        RewriteMiss(body, from, n, p);
      } else if j < r.value {
        RewriteStep(body, from, n, p, r.value);
        RewriteKeeps(body[r.value := Replacement], r.value + 1, n - 1, p, j);
      } else if j == r.value {
        RewriteStep(body, from, n, p, j);
        RewriteKeeps(body[j := Replacement], j + 1, n - 1, p, j);
        NoneUpTo(body, from, j, p);
      } else {
        RewriteAtAfter(body, from, n, p, r.value, j);
      }
    }
  }

  /** Past the first instruction found, the remaining attempts decide. */
  lemma {:induction false} RewriteAtAfter(body: seq<Instr>, from: nat, n: nat, p: Instr -> bool, i: nat, j: nat)
    requires from <= i < j < |body| && n > 0 && FindNext(body, from, p) == Some(i)
    ensures Rewrite(body, from, n, p)[j]
         == if p(body[j]) && Count(body[from..j], p) < n then Replacement else body[j]
    decreases n, 0
  {
    RewriteStep(body, from, n, p, i);
    RewriteAt(body[i := Replacement], i + 1, n - 1, p, j);
    RewriteAfter(body, from, p, i, j);
  }

  /** Positions before the start of the search are never touched. */
  lemma {:induction false} RewriteKeeps(body: seq<Instr>, from: nat, n: nat, p: Instr -> bool, j: nat)
    requires j < from <= |body|
    ensures Rewrite(body, from, n, p)[j] == body[j]
    decreases n
  {
    if n > 0 {
      var r := FindNext(body, from, p);
      if r.None? {
        RewriteMiss(body, from, n, p);
      } else {
        RewriteStep(body, from, n, p, r.value);
        RewriteKeeps(body[r.value := Replacement], r.value + 1, n - 1, p, j);
      }
    }
  }

  /** Where the search finds an instruction, it is replaced and the remaining attempts start after it. */
  lemma RewriteStep(body: seq<Instr>, from: nat, n: nat, p: Instr -> bool, i: nat)
    requires from <= |body| && n > 0 && FindNext(body, from, p) == Some(i)
    ensures i < |body|
    ensures Rewrite(body, from, n, p) == Rewrite(body[i := Replacement], i + 1, n - 1, p)
  {
  }

  /** Where the search finds nothing, the body stays as it is, however many attempts follow. */
  lemma {:induction false} RewriteMiss(body: seq<Instr>, from: nat, n: nat, p: Instr -> bool)
    requires from <= |body| && FindNext(body, from, p).None?
    ensures Rewrite(body, from, n, p) == body
    decreases n
  {
    if n > 0 {
      RewriteMiss(body, from, n - 1, p);
    }
  }

  /** Past the first instruction found at `i`, the count from `from` is one more than the count after `i`. */
  lemma RewriteAfter(body: seq<Instr>, from: nat, p: Instr -> bool, i: nat, j: nat)
    requires from <= i < j < |body| && FindNext(body, from, p) == Some(i)
    ensures body[i := Replacement][i + 1..j] == body[i + 1..j]
    ensures Count(body[from..j], p) == 1 + Count(body[i + 1..j], p)
  {
    NoneUpTo(body, from, i, p);
    CountSplit(body, from, p, i, j);
  }

  /** No instruction satisfying `p` between `from` and `m` means a count of zero. */
  lemma {:induction false} NoneUpTo(body: seq<Instr>, from: nat, m: nat, p: Instr -> bool)
    requires from <= m <= |body|
    requires forall k :: from <= k < m ==> !p(body[k])
    ensures Count(body[from..m], p) == 0
    decreases m - from
  {
    if from < m {
      NoneUpTo(body, from, m - 1, p);
      assert body[from..m][..m - 1 - from] == body[from..m - 1];
    }
  }

  /** Counting past the first instruction at `i` satisfying `p`: one for it, then those after it. */
  lemma {:induction false} CountSplit(body: seq<Instr>, from: nat, p: Instr -> bool, i: nat, j: nat)
    requires from <= i < j <= |body|
    requires p(body[i]) && Count(body[from..i], p) == 0
    ensures Count(body[from..j], p) == 1 + Count(body[i + 1..j], p)
    decreases j
  {
    if j == i + 1 {
      assert body[from..j][..|body[from..j]| - 1] == body[from..i];
      assert body[i + 1..j] == [];
    } else {
      CountSplit(body, from, p, i, j - 1);
      assert body[from..j][..|body[from..j]| - 1] == body[from..j - 1];
      assert body[i + 1..j][..|body[i + 1..j]| - 1] == body[i + 1..j - 1];
    }
  }

  /** A body without any wait load comes out of `ChangeAnimationTime` unchanged. */
  lemma RewriteWithoutTargets(body: seq<Instr>)
    requires forall j :: 0 <= j < |body| ==> !IsWaitLoad(body[j])
    ensures Rewrite(body, 0, Attempts, IsWaitLoad) == body
  {
    var r := Rewrite(body, 0, Attempts, IsWaitLoad);
    forall j | 0 <= j < |body| ensures r[j] == body[j] {
      RewriteAt(body, 0, Attempts, IsWaitLoad, j);
    }
  }

  /** `ChangeAnimationTime` replaces only wait loads, and only the first three of them. */
  lemma RewriteBound(body: seq<Instr>)
    ensures var r := Rewrite(body, 0, Attempts, IsWaitLoad);
      forall j :: 0 <= j < |body| && r[j] != body[j] ==> IsWaitLoad(body[j]) && Count(body[..j], IsWaitLoad) < Attempts
  {
    var r := Rewrite(body, 0, Attempts, IsWaitLoad);
    forall j | 0 <= j < |body| && r[j] != body[j] ensures IsWaitLoad(body[j]) && Count(body[..j], IsWaitLoad) < Attempts {
      RewriteAt(body, 0, Attempts, IsWaitLoad, j);
      assert body[0..j] == body[..j];
    }
  }

  // ---------------------------------------------------------------------
  // The IL manipulation API
  // ---------------------------------------------------------------------

  /** A method body being manipulated. */
  class ILContext {
    var body: seq<Instr>

    constructor(body0: seq<Instr>)
      ensures body == body0
    {
      body := body0;
    }
  }

  /** Whether the next search starts at the cursor (`Here`) or just after it (`AfterNext`). */
  datatype SearchTarget = Here | AfterNext

  /**
   * A cursor over a body: a position between instructions and where the
   * next search starts. A successful search leaves the cursor before the
   * instruction found and makes the next search start after it; removing
   * and emitting make the next search start at the cursor.
   */
  class ILCursor {
    const context: ILContext
    var index: nat
    var target: SearchTarget

    predicate Valid()
      reads this, context
    {
      index <= |context.body|
    }

    /** Where the next search starts. */
    function SearchStart(): nat
      reads this, context
      requires Valid()
    {
      if target == AfterNext && index < |context.body| then index + 1
      else if target == AfterNext then |context.body|
      else index
    }

    constructor(il: ILContext)
      ensures context == il && index == 0 && target == Here && Valid()
    {
      context := il;
      index := 0;
      target := Here;
    }

    /** `TryGotoNext(MoveType.Before, p)`: move before the next instruction satisfying `p`, if there is one. */
    method TryGotoNext(p: Instr -> bool) returns (found: bool)
      requires Valid()
      modifies this
      ensures Valid()
      ensures var r := FindNext(context.body, old(SearchStart()), p);
        && found == r.Some?
        && (found ==> index == r.value && target == AfterNext)
        && (!found ==> index == old(index) && target == old(target))
    {
      var i := SearchStart();
      while i < |context.body|
        invariant old(SearchStart()) <= i <= |context.body|
        invariant forall j :: old(SearchStart()) <= j < i ==> !p(context.body[j])
      {
        if p(context.body[i]) {
          index, target := i, AfterNext;
          return true;
        }
        i := i + 1;
      }
      found := false;
    }

    /** `Remove()`: delete the instruction after the cursor. */
    method Remove()
      requires Valid() && index < |context.body|
      modifies context, this
      ensures context.body == old(context.body[..index] + context.body[index + 1..])
      ensures index == old(index) && target == Here && Valid()
    {
      context.body := context.body[..index] + context.body[index + 1..];
      target := Here;
    }

    /** `EmitDelegate(...)`: insert the delegate call at the cursor and move past it. */
    method EmitDelegate()
      requires Valid()
      modifies context, this
      ensures context.body == old(context.body[..index] + [Replacement] + context.body[index..])
      ensures index == old(index) + 1 && target == Here && Valid()
    {
      context.body := context.body[..index] + [Replacement] + context.body[index..];
      index := index + 1;
      target := Here;
    }
  }

  /** Removing an instruction and emitting at the same place replaces it. */
  lemma RemoveThenEmit(body: seq<Instr>, at: nat)
    requires at < |body|
    ensures var removed := body[..at] + body[at + 1..];
      removed[..at] + [Replacement] + removed[at..] == body[at := Replacement]
  {
    var removed := body[..at] + body[at + 1..];
    assert removed[..at] == body[..at];
    assert removed[at..] == body[at + 1..];
  }

  /**
   * One attempt of `ChangeAnimationTime`: search forward for a wait load
   * and, when one is found, replace it with the delegate call; when none
   * is, the cursor stays where it was.
   */
  method ReplaceNextWait(cursor: ILCursor)
    requires cursor.Valid() && cursor.target == Here
    modifies cursor, cursor.context
    ensures cursor.Valid() && cursor.target == Here
    ensures (cursor.context.body, cursor.index) == Attempt(old(cursor.context.body), old(cursor.index), IsWaitLoad)
  {
    ghost var before := cursor.context.body;
    var found := cursor.TryGotoNext(IsWaitLoad);
    if found {
      var at := cursor.index;
      cursor.Remove();
      cursor.EmitDelegate();
      RemoveThenEmit(before, at);
    }
  }

  /** `ChangeAnimationTime`: three attempts, each continuing where the last one left the cursor. */
  method ChangeAnimationTime(il: ILContext)
    modifies il
    ensures il.body == Rewrite(old(il.body), 0, Attempts, IsWaitLoad)
  {
    var cursor := new ILCursor(il);
    for i := 0 to Attempts
      invariant cursor.context == il && cursor.Valid() && cursor.target == Here
      invariant Rewrite(old(il.body), 0, Attempts, IsWaitLoad) == Rewrite(il.body, cursor.index, Attempts - i, IsWaitLoad)
    {
      ReplaceNextWait(cursor);
    }
  }

  // ---------------------------------------------------------------------
  // Locating the coroutine
  // ---------------------------------------------------------------------

  datatype Visibility = Public | NonPublic

  /**
   * A method of `FishingController`: its visibility, whether it is an
   * instance method, its body, and, for a coroutine, the `MoveNext` method
   * of its compiler-generated state machine.
   */
  datatype MethodDef = MethodDef(visibility: Visibility, isInstance: bool, body: seq<Instr>, stateMachine: Option<string>)

  /** Why locating fails: the method to patch is missing. */
  datatype LocateError = MissingMethod(name: string)

  const FinishFishing: string := "FinishFishing"

  /** `Type.GetMethod(name)`: a public method of that name. */
  function GetPublicMethod(methods: map<string, MethodDef>, name: string): Option<MethodDef>
  {
    if name in methods && methods[name].visibility == Public then Some(methods[name]) else None
  }

  /** `Type.GetMethod(name, NonPublic | Instance)`: a non-public instance method of that name. */
  function GetNonPublicInstanceMethod(methods: map<string, MethodDef>, name: string): Option<MethodDef>
  {
    if name in methods && methods[name].visibility == NonPublic && methods[name].isInstance then Some(methods[name]) else None
  }

  /**
   * `getDynamicFinishFishingMethod`: FinishFishing must exist; the first
   * coroutine call in its body names the coroutine, whose state machine's
   * `MoveNext` is the method to rewrite (None when any step finds nothing).
   */
  function DynamicFinishFishingMethod(methods: map<string, MethodDef>): Result<Option<string>, LocateError>
  {
    match GetPublicMethod(methods, FinishFishing)
    case None => Failure(MissingMethod(FinishFishing))
    case Some(finish) =>
      match GetNonPublicInstanceMethod(methods, DynamicMethodName(finish.body))
      case None => Success(None)
      case Some(coroutine) => Success(coroutine.stateMachine)
  }

  /**
   * What `Awake` does with the locator's answer: a failure propagates (the
   * plugin does not load), and the rewrite hook is installed exactly when
   * a method was found.
   */
  function InstallsRewriteHook(methods: map<string, MethodDef>): Result<bool, LocateError>
  {
    match DynamicFinishFishingMethod(methods)
    case Failure(e) => Failure(e)
    case Success(m) => Success(m.Some?)
  }

  /** Without FinishFishing the plugin cannot load. */
  lemma MissingFinishFishingFails(methods: map<string, MethodDef>)
    requires GetPublicMethod(methods, FinishFishing).None?
    ensures DynamicFinishFishingMethod(methods) == Failure(MissingMethod(FinishFishing))
    ensures InstallsRewriteHook(methods).Failure?
  {
  }

  /** A FinishFishing without a coroutine call gives no method, and so no hook, when no method is named "". */
  lemma NoCallNoHook(methods: map<string, MethodDef>)
    requires GetPublicMethod(methods, FinishFishing).Some?
    requires forall j :: 0 <= j < |methods[FinishFishing].body| ==> !IsDynamicMethodCall(methods[FinishFishing].body[j])
    requires "" !in methods
    ensures DynamicFinishFishingMethod(methods) == Success(None)
    ensures InstallsRewriteHook(methods) == Success(false)
  {
    NoCallNoName(methods[FinishFishing].body);
  }

  /** The coroutine named by the first qualifying call is the one whose state machine is rewritten. */
  lemma FirstCallLocates(methods: map<string, MethodDef>, before: seq<Instr>, x: Instr, after: seq<Instr>)
    requires GetPublicMethod(methods, FinishFishing).Some?
    requires methods[FinishFishing].body == before + [x] + after
    requires forall j :: 0 <= j < |before| ==> !IsDynamicMethodCall(before[j])
    requires IsDynamicMethodCall(x)
    ensures Contains(x.text, "::")
    ensures var target := GetNonPublicInstanceMethod(methods, ExtractName(x.text));
      DynamicFinishFishingMethod(methods) == Success(if target.Some? then target.value.stateMachine else None)
  {
    FirstCallWins(before, x, after);
  }

  /**
   * The locator as the patch runs it: an IL hook on FinishFishing whose
   * cursor searches once for the coroutine call, recording its name when
   * the search predicate accepts it, and then the reflection lookups.
   */
  method GetDynamicFinishFishingMethod(methods: map<string, MethodDef>) returns (r: Result<Option<string>, LocateError>)
    ensures r == DynamicFinishFishingMethod(methods)
  {
    var finish := GetPublicMethod(methods, FinishFishing);
    var dynamicMethodName := "";
    if finish.None? {
      return Failure(MissingMethod(FinishFishing));
    }
    var il := new ILContext(finish.value.body);
    var cursor := new ILCursor(il);
    var found := cursor.TryGotoNext(IsDynamicMethodCall);
    if found {
      ContainsSeparator(il.body[cursor.index].text);
      dynamicMethodName := ExtractName(il.body[cursor.index].text);
    }
    var coroutine := GetNonPublicInstanceMethod(methods, dynamicMethodName);
    if coroutine.None? {
      return Success(None);
    }
    r := Success(coroutine.value.stateMachine);
  }

  // ---------------------------------------------------------------------
  // Completing the minigame
  // ---------------------------------------------------------------------

  /**
   * What the prefix on `FishingUI.LateUpdate` decides: whether the original
   * `LateUpdate` runs (a Harmony prefix returning false skips it) and
   * whether the progress slider is set to full.
   */
  datatype Decision = Decision(runOriginal: bool, fillSlider: bool)

  /** `SkipFishingMinigame` as written: a disabled setting also returns false. */
  function SkipFishingMinigameAsWritten(skip: bool, contentActive: bool, hasSlider: bool): Decision
  {
    if !skip then Decision(false, false)
    else if !contentActive then Decision(true, false)
    else Decision(true, hasSlider)
  }

  /** As written, turning the setting off (after the prefix was installed) stops `LateUpdate` from running at all. */
  lemma DisabledSkipStopsLateUpdate(contentActive: bool, hasSlider: bool)
    ensures !SkipFishingMinigameAsWritten(false, contentActive, hasSlider).runOriginal
  {
  }

  /**
   * `SkipFishingMinigame` corrected: a disabled setting lets `LateUpdate`
   * run untouched; an enabled one fills the slider of an active minigame
   * and always lets `LateUpdate` run, so that it finishes the catch.
   */
  function SkipFishingMinigame(skip: bool, contentActive: bool, hasSlider: bool): Decision
  {
    if !skip then Decision(true, false)
    else if !contentActive then Decision(true, false)
    else Decision(true, hasSlider)
  }

  /**
   * The corrected prefix never stops `LateUpdate`, touches the slider
   * exactly when skipping is on, the minigame is shown and the slider
   * exists, and agrees with the code as written whenever skipping is on.
   */
  lemma SkipFishingMinigameSpec(skip: bool, contentActive: bool, hasSlider: bool)
    ensures SkipFishingMinigame(skip, contentActive, hasSlider).runOriginal
    ensures SkipFishingMinigame(skip, contentActive, hasSlider).fillSlider <==> skip && contentActive && hasSlider
    ensures skip ==> SkipFishingMinigame(skip, contentActive, hasSlider) == SkipFishingMinigameAsWritten(skip, contentActive, hasSlider)
  {
  }
}
