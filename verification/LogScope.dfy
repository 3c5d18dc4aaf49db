/** Attributing a transaction's flat log to programs by the runtime's invoke and end lines. */
module LogScope {
  import opened Outcomes

  type Program = string

  const PROGRAM: string := "Program "
  const DATA: string := "Program data: "
  const INVOKE: string := " invoke ["

  // ----- recognizing lines -----

  // `\s`
  predicate IsSpace(c: char) {
    var u := c as int;
    || u == 32 || 9 <= u <= 13 || u == 0xa0 || u == 0x1680 || 0x2000 <= u <= 0x200a || u == 0x2028 || u == 0x2029
    || u == 0x202f || u == 0x205f || u == 0x3000 || u == 0xfeff
  }

  predicate IsDigit(c: char) { '0' <= c <= '9' }

  // `\S+`
  predicate IsWord(q: string) {
    q != "" && forall i :: 0 <= i < |q| ==> !IsSpace(q[i])
  }

  // `\d+`
  predicate IsNumber(s: string) {
    s != "" && forall i :: 0 <= i < |s| ==> IsDigit(s[i])
  }

  // The length of the leading `\S*`.
  function WordEnd(s: string): (k: nat)
    ensures k <= |s|
    ensures forall i :: 0 <= i < k ==> !IsSpace(s[i])
    ensures k < |s| ==> IsSpace(s[k])
  {
    if s == "" || IsSpace(s[0]) then 0 else 1 + WordEnd(s[1..])
  }

  predicate IsDepth(s: string) {
    && INVOKE <= s && |s| >= |INVOKE| + 2 && s[|s| - 1] == ']'
    && forall i :: |INVOKE| <= i < |s| - 1 ==> IsDigit(s[i])
  }

  predicate IsOutcome(s: string) {
    " success" <= s || " failed" <= s
  }

  // The program named by a line "Program <id><rest>".
  function Named(line: string): Option<(Program, string)> {
    if PROGRAM <= line && WordEnd(line[|PROGRAM|..]) > 0 then
      var rest := line[|PROGRAM|..];
      Some((rest[..WordEnd(rest)], rest[WordEnd(rest)..]))
    else None
  }

  function InvokedBy(line: string): Option<Program> {
    match Named(line)
    case None => None
    case Some((q, rest)) => if IsDepth(rest) then Some(q) else None
  }

  function EndedBy(line: string): Option<Program> {
    match Named(line)
    case None => None
    case Some((q, rest)) => if IsOutcome(rest) then Some(q) else None
  }

  // ----- the scan -----

  function LastIndexOf(stack: seq<Program>, p: Program): (i: int)
    ensures -1 <= i < |stack|
    ensures i >= 0 ==> stack[i] == p
    ensures forall k :: i < k < |stack| ==> stack[k] != p
  {
    if stack == [] then -1
    else if stack[|stack| - 1] == p then |stack| - 1
    else LastIndexOf(stack[..|stack| - 1], p)
  }

  function Top(stack: seq<Program>, p: Program): bool {
    stack != [] && stack[|stack| - 1] == p
  }

  function Pop(stack: seq<Program>, q: Program): seq<Program> {
    var i := LastIndexOf(stack, q);
    if i >= 0 then stack[..i] else stack
  }

  function StackAfter(stack: seq<Program>, line: string): seq<Program> {
    match InvokedBy(line)
    case Some(q) => stack + [q]
    case None => match EndedBy(line) case Some(q) => Pop(stack, q) case None => stack
  }

  // What one line adds to the answer.
  function Kept(line: string, stack: seq<Program>, p: Program): seq<string> {
    if InvokedBy(line).None? && EndedBy(line).None? && DATA <= line && Top(stack, p) then [line] else []
  }

  function Scan(lines: seq<string>, stack: seq<Program>, p: Program): seq<string> {
    if lines == [] then []
    else Kept(lines[0], stack, p) + Scan(lines[1..], StackAfter(stack, lines[0]), p)
  }

  lemma ScanStep(line: string, rest: seq<string>, stack: seq<Program>, p: Program)
    ensures Scan([line] + rest, stack, p) == Kept(line, stack, p) + Scan(rest, StackAfter(stack, line), p)
  {
    hide Kept, StackAfter;
    assert ([line] + rest)[1..] == rest;
  }

  lemma ScanFrom(lines: seq<string>, i: nat, stack: seq<Program>, p: Program, out: seq<string>)
    requires i < |lines|
    ensures out + Scan(lines[i..], stack, p)
            == (out + Kept(lines[i], stack, p)) + Scan(lines[i + 1..], StackAfter(stack, lines[i]), p)
  {
    hide Scan, StackAfter, Kept;
    assert lines[i..] == [lines[i]] + lines[i + 1..];
    ScanStep(lines[i], lines[i + 1..], stack, p);
  }

  method ProgramDataLinesFor(logMessages: seq<string>, programId: Program) returns (out: seq<string>)
    ensures out == Scan(logMessages, [], programId)
  {
    hide Scan, InvokedBy, EndedBy, LastIndexOf;
    var stack: seq<Program> := [];
    out := [];
    for i := 0 to |logMessages|
      invariant out + Scan(logMessages[i..], stack, programId) == Scan(logMessages, [], programId)
    {
      var line := logMessages[i];
      ScanFrom(logMessages, i, stack, programId, out);
      ghost var after, kept := StackAfter(stack, line), out + Kept(line, stack, programId);
      var invoke, end := InvokedBy(line), EndedBy(line);
      if invoke.Some? {
        stack := stack + [invoke.value];
      } else if end.Some? {
        var idx := LastIndexOf(stack, end.value);
        if idx != -1 {
          stack := stack[..idx];
        }
      } else if DATA <= line && Top(stack, programId) {
        out := out + [line];
      }
      assert stack == after && out == kept;
    }
    NothingLeft(stack, programId);
    assert logMessages[|logMessages|..] == [] && out + [] == out;
  }

  lemma NothingLeft(stack: seq<Program>, p: Program)
    ensures Scan([], stack, p) == []
  {
  }

  // ----- what really happened -----

  // A program's activity, in order: nested calls, its own data lines, and anything else it prints.
  datatype Activity =
    | Done
    | Call(program: Program, depth: string, body: Activity, outcome: string, next: Activity)
    | Emit(text: string, next: Activity)
    | Print(line: string, next: Activity)

  // The lines the runtime prints for it.
  function Flatten(a: Activity): seq<string> {
    match a
    case Done => []
    case Call(q, depth, body, outcome, next) =>
      [InvokeLine(q, depth)] + Flatten(body) + [EndLine(q, outcome)] + Flatten(next)
    case Emit(text, next) => [DATA + text] + Flatten(next)
    case Print(line, next) => [line] + Flatten(next)
  }

  function InvokeLine(q: Program, depth: string): string { PROGRAM + q + (INVOKE + depth + "]") }
  function EndLine(q: Program, outcome: string): string { PROGRAM + q + outcome }

  // Program ids are words without a colon. (Base58 has none.)
  predicate IsId(q: Program) {
    IsWord(q) && ':' !in q
  }

  // The texts are those the runtime prints: depths are numbers, outcomes say success or failure, data is free of
  // brackets, and other lines neither are data nor open or close a program by its id.
  predicate Printed(a: Activity) {
    match a
    case Done => true
    case Call(q, depth, body, outcome, next) =>
      && IsId(q) && IsNumber(depth) && IsOutcome(outcome)
      && Printed(body) && Printed(next)
    case Emit(text, next) => '[' !in text && Printed(next)
    case Print(line, next) => Quiet(line) && Printed(next)
  }

  predicate Quiet(line: string) {
    && InvokedBy(line).None? && !(DATA <= line) && !(TRUNCATED <= line)
    && (EndedBy(line).Some? ==> !IsId(EndedBy(line).value))
  }

  const TRUNCATED: string := "Log truncated"

  // The data lines emitted directly by p, given whether p is the program running this activity.
  function EmittedBy(a: Activity, running: bool, p: Program): seq<string> {
    match a
    case Done => []
    case Call(q, _, body, _, next) => EmittedBy(body, q == p, p) + EmittedBy(next, running, p)
    case Emit(text, next) => (if running then [DATA + text] else []) + EmittedBy(next, running, p)
    case Print(_, next) => EmittedBy(next, running, p)
  }

  // A data line reads as the end of a program called "data:" when its text begins like an outcome.
  predicate Masked(line: string) {
    DATA <= line && IsOutcome(" " + line[|DATA|..])
  }

  function Unmasked(lines: seq<string>): seq<string> {
    if lines == [] then [] else (if Masked(lines[0]) then [] else [lines[0]]) + Unmasked(lines[1..])
  }

  // ----- each printed line is recognized for what it is -----

  lemma {:induction false} WordEnds(q: string, rest: string)
    requires forall i :: 0 <= i < |q| ==> !IsSpace(q[i])
    requires rest != "" ==> IsSpace(rest[0])
    ensures WordEnd(q + rest) == |q|
  {
    hide IsSpace;
    if q == "" {
      assert q + rest == rest;
    } else {
      assert (q + rest)[1..] == q[1..] + rest && (q + rest)[0] == q[0];
      WordEnds(q[1..], rest);
    }
  }

  lemma NamedIs(q: string, rest: string)
    requires q != "" && forall i :: 0 <= i < |q| ==> !IsSpace(q[i])
    requires rest != "" ==> IsSpace(rest[0])
    ensures Named(PROGRAM + q + rest) == Some((q, rest))
  {
    hide IsSpace;
    WordEnds(q, rest);
    var line := PROGRAM + q + rest;
    assert line == PROGRAM + (q + rest) && line[|PROGRAM|..] == q + rest;
    assert (q + rest)[..|q|] == q && (q + rest)[|q|..] == rest;
  }

  lemma NamedSplits(line: string)
    requires Named(line).Some?
    ensures var (q, rest) := Named(line).value; IsWord(q) && line == "Program " + q + rest && (rest != "" ==> IsSpace(rest[0]))
  {
    hide IsSpace;
    var rest := line[|PROGRAM|..];
    assert line == PROGRAM + rest;
    assert rest == rest[..WordEnd(rest)] + rest[WordEnd(rest)..];
  }

  // A line invokes exactly the program q when it reads "Program q invoke [n]" for some number n.
  lemma InvokesIff(line: string, q: Program)
    ensures InvokedBy(line) == Some(q) <==>
            IsWord(q) && exists n: string :: IsNumber(n) && line == "Program " + q + " invoke [" + n + "]"
  {
    hide IsSpace, WordEnd, IsDigit, Named;
    if InvokedBy(line) == Some(q) {
      NamedSplits(line);
      var rest := Named(line).value.1;
      var n := rest[|INVOKE|..|rest| - 1];
      assert rest == INVOKE + n + "]";
      assert IsNumber(n);
      assert line == "Program " + q + " invoke [" + n + "]";
    }
    if IsWord(q) && exists n: string :: IsNumber(n) && line == "Program " + q + " invoke [" + n + "]" {
      var n: string :| IsNumber(n) && line == "Program " + q + " invoke [" + n + "]";
      Invokes(q, n);
      assert line == InvokeLine(q, n);
    }
  }

  lemma Invokes(q: Program, n: string)
    requires IsWord(q) && IsNumber(n)
    ensures InvokedBy(InvokeLine(q, n)) == Some(q)
  {
    hide WordEnd, IsDigit;
    var rest := INVOKE + n + "]";
    assert rest[0] == ' ';
    NamedIs(q, rest);
    assert INVOKE <= rest && rest[|INVOKE|..|rest| - 1] == n;
  }

  lemma SpaceIsSpace()
    ensures IsSpace(' ')
  {
  }

  lemma PrefixAfter(head: string, a: string, b: string)
    ensures head + a <= head + b <==> a <= b
  {
    if head + a <= head + b {
      assert (head + b)[|head|..] == b && (head + b)[|head|..|head + a|] == a;
    }
  }

  // A line ends exactly the program q when it begins with "Program q success" or "Program q failed".
  lemma EndsIff(line: string, q: Program)
    ensures EndedBy(line) == Some(q) <==>
            IsWord(q) && ("Program " + q + " success" <= line || "Program " + q + " failed" <= line)
  {
    hide WordEnd, IsSpace, Named, IsWord;
    if EndedBy(line) == Some(q) {
      NamedSplits(line);
      var rest := Named(line).value.1;
      PrefixAfter("Program " + q, " success", rest);
      PrefixAfter("Program " + q, " failed", rest);
    }
    if IsWord(q) && ("Program " + q + " success" <= line || "Program " + q + " failed" <= line) {
      Ends(line, q);
    }
  }

  lemma Ends(line: string, q: Program)
    requires IsWord(q) && ("Program " + q + " success" <= line || "Program " + q + " failed" <= line)
    ensures EndedBy(line) == Some(q)
  {
    hide WordEnd, IsSpace, Named;
    var head := PROGRAM + q;
    var rest := line[|head|..];
    assert line == head + rest;
    PrefixAfter(head, " success", rest);
    PrefixAfter(head, " failed", rest);
    SpaceIsSpace();
    NamedIs(q, rest);
  }

  lemma EndIsRecognized(q: Program, outcome: string)
    requires IsId(q) && IsOutcome(outcome)
    ensures InvokedBy(EndLine(q, outcome)) == None && EndedBy(EndLine(q, outcome)) == Some(q)
  {
    assert outcome[0] == ' ' && outcome[1] != 'i';
    NamedIs(q, outcome);
    assert INVOKE[1] == 'i';
  }

  lemma DataIsRecognized(text: string)
    requires '[' !in text
    ensures InvokedBy(DATA + text) == None
    ensures EndedBy(DATA + text) == if Masked(DATA + text) then Some("data:") else None
  {
    var rest := " " + text;
    assert DATA == PROGRAM + "data:" + " ";
    assert DATA + text == PROGRAM + "data:" + rest;
    NamedIs("data:", rest);
    assert (DATA + text)[|DATA|..] == text;
    NoDepth(text);
  }

  lemma NoDepth(text: string)
    requires '[' !in text
    ensures !IsDepth(" " + text)
  {
    var rest := " " + text;
    assert INVOKE[8] == '[';
    assert |rest| > 8 ==> rest[8] == text[7] && text[7] in text;
  }

  // ----- the scan of an activity -----

  ghost predicate Clean(stack: seq<Program>) {
    forall i :: 0 <= i < |stack| ==> IsId(stack[i])
  }

  lemma PopOther(stack: seq<Program>, q: Program)
    requires Clean(stack) && !IsId(q)
    ensures Pop(stack, q) == stack
  {
  }

  // A program's end line takes its own frame off, even when the program also runs further down.
  lemma EndPops(stack: seq<Program>, q: Program)
    ensures Pop(stack + [q], q) == stack
  {
    var inner := stack + [q];
    assert inner[|inner| - 1] == q;
    assert LastIndexOf(inner, q) == |stack|;
    assert inner[..|stack|] == stack;
  }

  lemma CallSteps(a: Activity, rest: seq<string>, stack: seq<Program>, p: Program)
    requires a.Call? && Printed(a)
    ensures var tail := [EndLine(a.program, a.outcome)] + (Flatten(a.next) + rest);
      && Scan(Flatten(a) + rest, stack, p) == Scan(Flatten(a.body) + tail, stack + [a.program], p)
      && Scan(tail, stack + [a.program], p) == Scan(Flatten(a.next) + rest, stack, p)
  {
    hide Scan, LastIndexOf, InvokedBy, EndedBy, InvokeLine, EndLine, IsWord, IsDigit, IsOutcome, Pop;
    var q, invoke, end := a.program, InvokeLine(a.program, a.depth), EndLine(a.program, a.outcome);
    var tail := [end] + (Flatten(a.next) + rest);
    assert Flatten(a) + rest == [invoke] + (Flatten(a.body) + tail);
    Invokes(q, a.depth);
    EndIsRecognized(q, a.outcome);
    ScanStep(invoke, Flatten(a.body) + tail, stack, p);
    ScanStep(end, Flatten(a.next) + rest, stack + [q], p);
    EndPops(stack, q);
    assert [] + Scan(Flatten(a.body) + tail, stack + [q], p) == Scan(Flatten(a.body) + tail, stack + [q], p);
    assert [] + Scan(Flatten(a.next) + rest, stack, p) == Scan(Flatten(a.next) + rest, stack, p);
  }

  lemma EmitSteps(a: Activity, rest: seq<string>, stack: seq<Program>, p: Program)
    requires a.Emit? && Printed(a) && Clean(stack)
    ensures Scan(Flatten(a) + rest, stack, p)
            == (if Top(stack, p) && !Masked(DATA + a.text) then [DATA + a.text] else []) + Scan(Flatten(a.next) + rest, stack, p)
  {
    hide Scan, InvokedBy, EndedBy, Masked, Pop, IsId;
    var line := DATA + a.text;
    assert Flatten(a) + rest == [line] + (Flatten(a.next) + rest);
    ScanStep(line, Flatten(a.next) + rest, stack, p);
    DataIsRecognized(a.text);
    DataIsNoId();
    PopOther(stack, "data:");
  }

  lemma DataIsNoId()
    ensures !IsId("data:")
  {
    assert "data:"[4] == ':';
  }

  lemma PrintSteps(a: Activity, rest: seq<string>, stack: seq<Program>, p: Program)
    requires a.Print? && Printed(a) && Clean(stack)
    ensures Scan(Flatten(a) + rest, stack, p) == Scan(Flatten(a.next) + rest, stack, p)
  {
    hide Scan, InvokedBy, EndedBy, Pop, IsId;
    assert Flatten(a) + rest == [a.line] + (Flatten(a.next) + rest);
    ScanStep(a.line, Flatten(a.next) + rest, stack, p);
    if EndedBy(a.line).Some? {
      PopOther(stack, EndedBy(a.line).value);
    }
    assert [] + Scan(Flatten(a.next) + rest, stack, p) == Scan(Flatten(a.next) + rest, stack, p);
  }

  lemma {:induction false} UnmaskedConcat(a: seq<string>, b: seq<string>)
    ensures Unmasked(a + b) == Unmasked(a) + Unmasked(b)
  {
    hide Masked;
    if a == [] {
      assert a + b == b;
    } else {
      assert (a + b)[1..] == a[1..] + b;
      UnmaskedConcat(a[1..], b);
    }
  }

  lemma OneUnmasked(line: string)
    ensures Unmasked([line]) == if Masked(line) then [] else [line]
    ensures Unmasked([]) == []
  {
    hide Masked;
    assert [line][1..] == [];
  }

  lemma {:induction false} ScanOfActivity(a: Activity, rest: seq<string>, stack: seq<Program>, p: Program)
    requires Printed(a) && Clean(stack)
    ensures Scan(Flatten(a) + rest, stack, p) == Unmasked(EmittedBy(a, Top(stack, p), p)) + Scan(rest, stack, p)
    decreases a
  {
    hide Scan, Flatten, Unmasked, Masked, InvokedBy, EndedBy, IsId, IsDigit, IsOutcome, EndLine;
    var left := Scan(rest, stack, p);
    match a {
      case Done =>
        FlattenDone();
        OneUnmasked("");
        assert [] + rest == rest;
      case Call(q, _, body, outcome, next) =>
        CallSteps(a, rest, stack, p);
        ScanOfActivity(body, [EndLine(q, outcome)] + (Flatten(next) + rest), stack + [q], p);
        ScanOfActivity(next, rest, stack, p);
        UnmaskedConcat(EmittedBy(body, q == p, p), EmittedBy(next, Top(stack, p), p));
        Associate(Unmasked(EmittedBy(body, q == p, p)), Unmasked(EmittedBy(next, Top(stack, p), p)), left);
      case Emit(text, next) =>
        EmitSteps(a, rest, stack, p);
        ScanOfActivity(next, rest, stack, p);
        OneUnmasked(DATA + text);
        var head := if Top(stack, p) then [DATA + text] else [];
        UnmaskedConcat(head, EmittedBy(next, Top(stack, p), p));
        Associate(Unmasked(head), Unmasked(EmittedBy(next, Top(stack, p), p)), left);
      case Print(_, next) =>
        PrintSteps(a, rest, stack, p);
        ScanOfActivity(next, rest, stack, p);
    }
  }

  lemma FlattenDone()
    ensures Flatten(Done) == []
  {
  }

  lemma Associate<T>(a: seq<T>, b: seq<T>, c: seq<T>)
    ensures a + (b + c) == (a + b) + c
    ensures [] + b == b
  {
  }

  lemma {:induction false} UnmaskedIsShorter(lines: seq<string>)
    ensures |Unmasked(lines)| <= |lines|
    ensures Unmasked(lines) == lines <==> forall line :: line in lines ==> !Masked(line)
  {
    hide Masked;
    if lines != [] {
      UnmaskedIsShorter(lines[1..]);
      assert lines == [lines[0]] + lines[1..];
      assert lines[0] in lines;
    }
  }

  // However calls nest and even when the program re-enters itself, the scan returns the program's own data lines
  // in order, without the masked ones; so attribution is exact if and only if none of them is masked.
  lemma AttributionIsExact(a: Activity, p: Program)
    requires Printed(a)
    ensures Scan(Flatten(a), [], p) == Unmasked(EmittedBy(a, false, p))
    ensures Scan(Flatten(a), [], p) == EmittedBy(a, false, p) <==>
            forall line :: line in EmittedBy(a, false, p) ==> !Masked(line)
  {
    hide Scan, Flatten, Printed, Masked, EmittedBy, Unmasked;
    ScanOfActivity(a, [], [], p);
    NothingLeft([], p);
    assert Flatten(a) + [] == Flatten(a);
    UnmaskedIsShorter(EmittedBy(a, false, p));
  }

  // And a data line can be masked: its text only has to begin with "failed".
  lemma MaskedLineIsLost(p: Program)
    requires IsId(p)
    ensures var a := Call(p, "1", Emit("failedAAAA", Done), " success", Done);
      Printed(a) && EmittedBy(a, false, p) == [DATA + "failedAAAA"] && Scan(Flatten(a), [], p) == []
  {
    hide Scan, Flatten, IsId;
    var text := "failedAAAA";
    var a := Call(p, "1", Emit(text, Done), " success", Done);
    assert '[' !in text;
    assert Printed(a);
    assert (DATA + text)[|DATA|..] == text;
    assert " failed" <= " " + text;
    AttributionIsExact(a, p);
    OneUnmasked(DATA + text);
    assert EmittedBy(Done, true, p) == [] && EmittedBy(Done, false, p) == [];
    assert EmittedBy(Emit(text, Done), true, p) == [DATA + text] + [];
    assert EmittedBy(a, false, p) == [DATA + text] + [] + [];
  }
}
