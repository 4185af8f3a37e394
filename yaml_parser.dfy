/**
 * `parseYaml` (check-i18n.js): a line-driven state machine over a stack of
 * `{obj, indent}` frames and an optional open block scalar.
 *
 * `Step` is one iteration of the source's `for` loop as a function on a `State`;
 * `Parse` runs it over the lines. `ParseYaml` is the loop itself, with its mutable
 * stack and multi-line accumulator, proved to compute `Parse`.
 *
 * A frame's `obj` is a reference to a mapping nested in the result. Here a frame
 * names that mapping by its path of keys from the root, and `parent[key] = v` is
 * `SetAt(root, path, key, v)`. `Valid` states why this is sound: the frames are the
 * chain of ancestors of the top frame's mapping, and every write goes to the top.
 */
module YamlParser {
  import opened Wrappers
  import opened Text
  import opened YamlTree
  import opened YamlLines

  /** `{ obj, indent }`, with `obj` given by its path from the root. */
  datatype Frame = Frame(path: seq<string>, indent: int)

  /** An open block scalar: `multilineKey`, `multilineIndent`, `multilineValue`. */
  datatype Capture = Capture(key: string, indent: nat, lines: seq<string>)

  datatype State = State(root: Node, stack: seq<Frame>, capture: Option<Capture>)

  /** `result = {}`, `stack = [{ obj: result, indent: -1 }]`, `multilineKey = null`. */
  const Start: State := State(Mapping([]), [Frame([], -1)], None)

  function Top(stack: seq<Frame>): Frame
    requires |stack| > 0
  {
    stack[|stack| - 1]
  }

  /** `while (stack.length > 1 && stack[stack.length - 1].indent >= indent) stack.pop()`:
      what is left is a prefix whose top is the root frame or opened below `indent`,
      and every frame removed was opened at `indent` or deeper. */
  function PopFrames(stack: seq<Frame>, indent: int): (r: seq<Frame>)
    requires |stack| > 0
    ensures 0 < |r| <= |stack| && r == stack[..|r|]
    ensures |r| == 1 || Top(r).indent < indent
    ensures forall i :: |r| <= i < |stack| ==> stack[i].indent >= indent
    decreases |stack|
  {
    if |stack| > 1 && Top(stack).indent >= indent then PopFrames(stack[..|stack| - 1], indent)
    else stack
  }

  /** The first non-continuation line ends the block scalar: the captured lines, joined
      with "\n" and trimmed at both ends, go into the top frame's mapping. */
  function CloseCapture(st: State): State
    requires |st.stack| > 0 && st.capture.Some?
  {
    var c := st.capture.value;
    State(SetAt(st.root, Top(st.stack).path, c.key, Scalar(Trim(Join(c.lines, "\n")))), st.stack, None)
  }

  /** One line outside a block scalar (check-i18n.js lines 33-66): blank lines, comments
      and lines that are not `key: value` are skipped. */
  function StepLine(st: State, line: string): (r: State)
    requires |st.stack| > 0 && st.capture.None?
    ensures |r.stack| > 0
  {
    if IsBlank(line) || IsComment(line) then st
    else match MatchKeyLine(line)
      case None => st
      case Some(m) => Apply(st, m.indent, KeyOf(m), ValueOf(m))
  }

  /** A `key: value` line at `indent`: pop to the parent, then open a block scalar,
      open a nested mapping, or store the unquoted scalar. */
  function Apply(st: State, indent: nat, key: string, value: string): (r: State)
    requires |st.stack| > 0
    ensures |r.stack| > 0
  {
    var stack := PopFrames(st.stack, indent);
    var parent := Top(stack).path;
    if IsBlockIndicator(value) then
      State(st.root, stack, Some(Capture(key, indent, [])))
    else if OpensMapping(value) then
      State(SetAt(st.root, parent, key, Mapping([])), stack + [Frame(parent + [key], indent)], None)
    else
      State(SetAt(st.root, parent, key, Scalar(Unquote(value))), stack, None)
  }

  /** One iteration of the loop: capture a continuation line, or close the capture and
      then treat the same line as an ordinary line. */
  function Step(st: State, line: string): (r: State)
    requires |st.stack| > 0
    ensures |r.stack| > 0
  {
    match st.capture
    case Some(c) =>
      if Continues(line, c.indent) then st.(capture := Some(c.(lines := c.lines + [line])))
      else StepLine(CloseCapture(st), line)
    case None => StepLine(st, line)
  }

  /** The state after feeding `lines` one by one, last line last. */
  function Run(st: State, lines: seq<string>): (r: State)
    requires |st.stack| > 0
    ensures |r.stack| > 0
    decreases |lines|
  {
    if lines == [] then st else Step(Run(st, lines[..|lines| - 1]), lines[|lines| - 1])
  }

  /** `parseYaml(content)`: the root after the last line. There is no flush after the
      loop, so a block scalar still open at the end is not stored. */
  function Parse(content: string): Node
  {
    Run(Start, Split(content, '\n')).root
  }

  // ---------------------------------------------------------------------------
  // The stack invariant

  /** The bottom frame is the root at indent -1; frame `i` holds the mapping at the first
      `i` keys of the top frame's path; indents strictly increase from bottom to top. */
  ghost predicate StackShape(stack: seq<Frame>) {
    && |stack| > 0
    && stack[0] == Frame([], -1)
    && |Top(stack).path| == |stack| - 1
    && (forall i :: 0 <= i < |stack| ==> stack[i].path == Top(stack).path[..i])
    && (forall i, j :: 0 <= i < j < |stack| ==> stack[i].indent < stack[j].indent)
  }

  ghost predicate Valid(st: State) {
    && StackShape(st.stack)
    && IsMapAt(st.root, Top(st.stack).path)
    && Unique(st.root)
  }

  lemma StartValid()
    ensures Valid(Start)
  {
  }

  /** Popping stops at the nearest frame opened below `indent`: exactly the frames with a
      smaller indent stay. The root frame is never popped. */
  lemma PopFramesNearest(stack: seq<Frame>, indent: nat)
    requires StackShape(stack)
    ensures var r := PopFrames(stack, indent);
      && StackShape(r)
      && r[0] == stack[0]
      && Top(r).path == Top(stack).path[..|r| - 1]
      && forall i :: 0 <= i < |stack| ==> (i < |r| <==> stack[i].indent < indent)
  {
    var r := PopFrames(stack, indent);
    var p := Top(stack).path;
    assert Top(r) == stack[|r| - 1];
    forall i | 0 <= i < |r| ensures r[i].path == Top(r).path[..i] {
      assert r[i] == stack[i];
      assert p[..|r| - 1][..i] == p[..i];
    }
    forall i | 0 <= i < |r| ensures r[i].indent < indent {
      if i < |r| - 1 {
        assert r[i] == stack[i] && Top(r) == stack[|r| - 1];
      }
    }
  }

  lemma StepLineValid(st: State, line: string)
    requires Valid(st) && st.capture.None?
    ensures Valid(StepLine(st, line))
  {
    if !IsBlank(line) && !IsComment(line) && MatchKeyLine(line).Some? {
      var m := MatchKeyLine(line).value;
      ApplyValid(st, m.indent, KeyOf(m), ValueOf(m));
    }
  }

  lemma ApplyValid(st: State, indent: nat, key: string, value: string)
    requires Valid(st)
    ensures Valid(Apply(st, indent, key, value))
  {
    var stack := PopFrames(st.stack, indent);
    PopFramesNearest(st.stack, indent);
    PrefixIsMap(st.root, Top(st.stack).path, |stack| - 1);
    var parent := Top(stack).path;
    if IsBlockIndicator(value) {
    } else if OpensMapping(value) {
      OpenMappingValid(st.root, stack, indent, key);
    } else {
      var v := Scalar(Unquote(value));
      SetAtFound(st.root, parent, key, v);
      SetAtUnique(st.root, parent, key, v);
      assert parent[..|parent|] == parent;
    }
  }

  /** Opening a nested mapping pushes a frame one key deeper and opened deeper than the rest. */
  lemma OpenMappingValid(root: Node, stack: seq<Frame>, indent: nat, key: string)
    requires StackShape(stack) && IsMapAt(root, Top(stack).path) && Unique(root)
    requires forall i :: 0 <= i < |stack| ==> stack[i].indent < indent
    ensures var parent := Top(stack).path;
      Valid(State(SetAt(root, parent, key, Mapping([])), stack + [Frame(parent + [key], indent)], None))
  {
    var parent := Top(stack).path;
    SetAtFound(root, parent, key, Mapping([]));
    SetAtUnique(root, parent, key, Mapping([]));
    PushShape(stack, indent, key);
  }

  lemma PushShape(stack: seq<Frame>, indent: nat, key: string)
    requires StackShape(stack)
    requires forall i :: 0 <= i < |stack| ==> stack[i].indent < indent
    ensures StackShape(stack + [Frame(Top(stack).path + [key], indent)])
  {
    var parent := Top(stack).path;
    var stack' := stack + [Frame(parent + [key], indent)];
    forall i | 0 <= i < |stack'| ensures stack'[i].path == Top(stack').path[..i] {
      if i < |stack| {
        assert stack'[i] == stack[i];
        assert (parent + [key])[..i] == parent[..i];
      }
    }
  }

  lemma StepValid(st: State, line: string)
    requires Valid(st)
    ensures Valid(Step(st, line))
  {
    match st.capture
    case None =>
      StepLineValid(st, line);
    case Some(c) =>
      if !Continues(line, c.indent) {
        var p := Top(st.stack).path;
        var v := Scalar(Trim(Join(c.lines, "\n")));
        SetAtFound(st.root, p, c.key, v);
        SetAtUnique(st.root, p, c.key, v);
        assert p[..|p|] == p;
        StepLineValid(CloseCapture(st), line);
      }
  }

  /** The stack invariant holds after every line. */
  lemma {:induction false} RunValid(st: State, lines: seq<string>)
    requires Valid(st)
    ensures Valid(Run(st, lines))
    decreases |lines|
  {
    if lines != [] {
      RunValid(st, lines[..|lines| - 1]);
      StepValid(Run(st, lines[..|lines| - 1]), lines[|lines| - 1]);
    }
  }

  /** `parseYaml` always returns a mapping, with every key at most once in each mapping. */
  lemma ParseIsMapping(content: string)
    ensures Parse(content).Mapping? && Unique(Parse(content))
  {
    RunValid(Start, Split(content, '\n'));
  }

  // ---------------------------------------------------------------------------
  // What one line does

  /** Blank lines, comment lines and lines that do not match the key pattern change nothing. */
  lemma SkippedLine(st: State, line: string)
    requires |st.stack| > 0 && st.capture.None?
    requires IsBlank(line) || IsComment(line) || MatchKeyLine(line).None?
    ensures Step(st, line) == st
  {
  }

  /** A matching line is applied with the text before its first colon, trimmed and
      unquoted, as the key and the text after it, trimmed, as the value. */
  lemma KeyLineEffect(st: State, line: string)
    requires |st.stack| > 0 && st.capture.None?
    requires !IsBlank(line) && !IsComment(line) && MatchKeyLine(line).Some?
    ensures IndexOf(line, ':').Some?
    ensures Step(st, line) == Apply(st, MatchKeyLine(line).value.indent,
      Unquote(Trim(line[..IndexOf(line, ':').value])), Trim(line[IndexOf(line, ':').value + 1..]))
  {
    assert IndexOf(line, ':').Some? by { MatchKeyLineSpec(line); }
    StepKeyLine(st, line);
    KeyAndValueOfLine(line);
  }

  /** The indent a matching line is applied at is its leading white space, or one column
      less when the text before the colon is blank and the regex backtracks. */
  lemma KeyLineIndent(line: string)
    requires MatchKeyLine(line).Some?
    ensures IndexOf(line, ':').Some?
    ensures MatchKeyLine(line).value.indent == LeadingSpace(line)
      || (MatchKeyLine(line).value.indent + 1 == LeadingSpace(line) && Trim(line[..IndexOf(line, ':').value]) == [])
  {
    MatchKeyLineSpec(line);
    var c := IndexOf(line, ':').value;
    var m := MatchKeyLine(line).value;
    if m.indent + 1 == LeadingSpace(line) {
      assert line[..c][..m.indent] == line[..m.indent];
      assert line[..c][m.indent..] == m.rawKey;
      TrimAfterSpace(line[..c], m.indent);
    }
  }

  lemma StepKeyLine(st: State, line: string)
    requires |st.stack| > 0 && st.capture.None?
    requires !IsBlank(line) && !IsComment(line) && MatchKeyLine(line).Some?
    ensures var m := MatchKeyLine(line).value; Step(st, line) == Apply(st, m.indent, KeyOf(m), ValueOf(m))
  {
  }

  lemma ApplyEffect(st: State, indent: nat, key: string, value: string)
    requires Valid(st)
    ensures var popped := PopFrames(st.stack, indent);
      var parent := Top(popped);
      var r := Apply(st, indent, key, value);
      && (forall i :: 0 <= i < |st.stack| ==> (i < |popped| <==> st.stack[i].indent < indent))
      && (IsBlockIndicator(value) ==>
            r == State(st.root, popped, Some(Capture(key, indent, []))))
      && (!IsBlockIndicator(value) && OpensMapping(value) ==>
            && Lookup(r.root, parent.path + [key]) == Some(Mapping([]))
            && r.stack == popped + [Frame(parent.path + [key], indent)]
            && r.capture.None?)
      && (!IsBlockIndicator(value) && !OpensMapping(value) ==>
            && Lookup(r.root, parent.path + [key]) == Some(Scalar(Unquote(value)))
            && r.stack == popped
            && r.capture.None?)
  {
    var popped := PopFrames(st.stack, indent);
    PopFramesNearest(st.stack, indent);
    PrefixIsMap(st.root, Top(st.stack).path, |popped| - 1);
    if !IsBlockIndicator(value) {
      var v := if OpensMapping(value) then Mapping([]) else Scalar(Unquote(value));
      SetAtFound(st.root, Top(popped).path, key, v);
    }
  }

  /** Nothing else in the tree changes: a path that is neither an ancestor of the parent
      mapping nor runs through the written key leads where it did before. */
  lemma ApplyFrame(st: State, indent: nat, key: string, value: string, q: seq<string>)
    requires Valid(st)
    requires var parent := Top(PopFrames(st.stack, indent)).path;
      !IsPrefix(q, parent) && !IsPrefix(parent + [key], q)
    ensures Lookup(Apply(st, indent, key, value).root, q) == Lookup(st.root, q)
  {
    var popped := PopFrames(st.stack, indent);
    PopFramesNearest(st.stack, indent);
    PrefixIsMap(st.root, Top(st.stack).path, |popped| - 1);
    if !IsBlockIndicator(value) {
      var v := if OpensMapping(value) then Mapping([]) else Scalar(Unquote(value));
      SetAtFrame(st.root, Top(popped).path, key, v, q);
    }
  }

  /** While a block scalar is open, continuation lines are only collected: the tree and
      the stack stay as they were when it opened, so a capture still open at the end of
      the input is never stored. */
  lemma {:induction false} CaptureCollects(st: State, rest: seq<string>)
    requires |st.stack| > 0 && st.capture.Some?
    requires forall i :: 0 <= i < |rest| ==> Continues(rest[i], st.capture.value.indent)
    ensures Run(st, rest) == st.(capture := Some(st.capture.value.(lines := st.capture.value.lines + rest)))
    decreases |rest|
  {
    var c := st.capture.value;
    if rest == [] {
      assert c.lines + rest == c.lines;
    } else {
      var init, last := rest[..|rest| - 1], rest[|rest| - 1];
      CaptureCollects(st, init);
      var mid := st.(capture := Some(c.(lines := c.lines + init)));
      assert Continues(last, c.indent);
      assert Step(mid, last) == st.(capture := Some(c.(lines := c.lines + init + [last])));
      assert init + [last] == rest;
      assert c.lines + init + [last] == c.lines + rest;
    }
  }

  /** The first non-continuation line stores the trimmed, joined block text under the
      captured key in the top mapping, and is then processed as an ordinary line. */
  lemma CaptureCloses(st: State, line: string)
    requires Valid(st) && st.capture.Some?
    requires !Continues(line, st.capture.value.indent)
    ensures var c := st.capture.value;
      && Step(st, line) == StepLine(CloseCapture(st), line)
      && CloseCapture(st).stack == st.stack
      && Lookup(CloseCapture(st).root, Top(st.stack).path + [c.key])
           == Some(Scalar(Trim(Join(c.lines, "\n"))))
  {
    var c := st.capture.value;
    SetAtFound(st.root, Top(st.stack).path, c.key, Scalar(Trim(Join(c.lines, "\n"))));
  }

  /** Trimming the joined text strips the indentation of the first captured line only:
      later lines keep theirs. */
  lemma BlockTextKeepsInnerIndent(first: string, rest: seq<string>)
    requires !AllSpace(first)
    requires |rest| > 0 && rest[|rest| - 1] != [] && !IsSpace(rest[|rest| - 1][|rest[|rest| - 1]| - 1])
    ensures Trim(Join([first] + rest, "\n")) == TrimStart(first) + "\n" + Join(rest, "\n")
  {
    assert ([first] + rest)[1..] == rest;
    var tail := "\n" + Join(rest, "\n");
    assert Join([first] + rest, "\n") == first + tail;
    TrimStartAppend(first, tail);
    JoinEndsWithLast(rest, "\n");
    var t := TrimStart(first) + tail;
    assert t[|t| - 1] == tail[|tail| - 1];
  }

  // ---------------------------------------------------------------------------
  // The loop

  function StateOf(root: Node, stack: seq<Frame>, key: Option<string>, indent: nat, value: seq<string>): State
  {
    State(root, stack, if key.Some? then Some(Capture(key.value, indent, value)) else None)
  }

  lemma RunNext(lines: seq<string>, i: nat)
    requires i < |lines|
    ensures Run(Start, lines[..i + 1]) == Step(Run(Start, lines[..i]), lines[i])
  {
    assert lines[..i + 1][..i] == lines[..i];
  }

  /** `parseYaml`: the loop over the lines, with the block-scalar handling of lines 19-31;
      every other line goes to `ParseLine`. */
  method ParseYaml(content: string) returns (result: Node)
    ensures result == Parse(content)
  {
    var lines := Split(content, '\n');
    result := Mapping([]);
    var stack := [Frame([], -1)];
    var multilineKey: Option<string> := None;
    var multilineIndent: nat := 0;
    var multilineValue: seq<string> := [];
    ghost var st := Start;
    for i := 0 to |lines|
      invariant st == Run(Start, lines[..i])
      invariant StateOf(result, stack, multilineKey, multilineIndent, multilineValue) == st
    {
      var line := lines[i];
      RunNext(lines, i);
      if multilineKey.Some? {
        var currentIndent := FirstNonSpace(line);
        if currentIndent > multilineIndent || IsBlank(line) {
          multilineValue := multilineValue + [line];
          st := Step(st, line);
          continue;
        } else {
          var parent := stack[|stack| - 1].path;
          result := SetAt(result, parent, multilineKey.value, Scalar(Trim(Join(multilineValue, "\n"))));
          multilineKey := None;
          multilineValue := [];
        }
      }
      assert Step(st, line) == StepLine(State(result, stack, None), line);
      var key, indent;
      result, stack, key, indent := ParseLine(result, stack, line);
      if key.Some? {
        multilineKey, multilineIndent, multilineValue := key, indent, [];
      }
      st := Step(st, line);
    }
    assert lines[..|lines|] == lines;
  }

  /** Lines 33-44 of the loop body, for a line outside a block scalar: skip blank lines,
      comments and lines that are not `key: value`, else extract the indent, key and value.
      A block indicator comes back as the key and indent of a new capture. */
  method ParseLine(root: Node, stack: seq<Frame>, line: string)
    returns (root': Node, stack': seq<Frame>, multilineKey: Option<string>, multilineIndent: nat)
    requires |stack| > 0
    ensures StateOf(root', stack', multilineKey, multilineIndent, []) == StepLine(State(root, stack, None), line)
  {
    if IsBlank(line) || IsComment(line) {
      return root, stack, None, 0;
    }
    var matched := MatchKeyLine(line);
    if matched.None? {
      return root, stack, None, 0;
    }
    var indent := matched.value.indent;
    var key := KeyOf(matched.value);
    var value := ValueOf(matched.value);
    root', stack', multilineKey, multilineIndent := ApplyLine(root, stack, indent, key, value);
  }

  /** Lines 46-66: pop to the parent frame, then open a capture, open a nested mapping
      or store the scalar. */
  method ApplyLine(root: Node, stack: seq<Frame>, indent: nat, key: string, value: string)
    returns (root': Node, stack': seq<Frame>, multilineKey: Option<string>, multilineIndent: nat)
    requires |stack| > 0
    ensures StateOf(root', stack', multilineKey, multilineIndent, []) == Apply(State(root, stack, None), indent, key, value)
  {
    root', stack', multilineKey, multilineIndent := root, stack, None, 0;
    while |stack'| > 1 && stack'[|stack'| - 1].indent >= indent
      invariant |stack'| > 0
      invariant PopFrames(stack', indent) == PopFrames(stack, indent)
    {
      stack' := stack'[..|stack'| - 1];
    }

    var parent := stack'[|stack'| - 1].path;
    if IsBlockIndicator(value) {
      multilineKey := Some(key);
      multilineIndent := indent;
    } else if value == "" || value == "{}" {
      root' := SetAt(root', parent, key, Mapping([]));
      stack' := stack' + [Frame(parent + [key], indent)];
    } else {
      root' := SetAt(root', parent, key, Scalar(Unquote(value)));
    }
  }
}
