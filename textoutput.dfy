/**
 * The plain-text output the disassembler and decompiler write into (StringBuilderTextOutput.cs):
 * a string builder, an indentation level, and a flag that makes the first write after a line
 * break start with the indentation.
 */
module TextOutput {
  import opened Wrappers
  import opened Strings

  /** A `StringBuilder`, which the caller may hold and read as well. */
  class StringBuilder {
    var text: string

    constructor (initial: string)
      ensures text == initial
    {
      text := initial;
    }

    method Append(s: string)
      modifies this
      ensures text == old(text) + s
    {
      text := text + s;
    }
  }

  /** What the output holds: the builder's text, the level, the pending-indentation flag, the indentation string. */
  datatype OutputState = OutputState(text: string, indent: int, needsIndent: bool, indentation: string)

  /** `n` copies of `s`; none when `n` is zero or negative. */
  function Repeat(s: string, n: int): string
  {
    if n <= 0 then "" else Repeat(s, n - 1) + s
  }

  /** The calls the output answers. */
  datatype Op =
    | IndentOp
    | UnindentOp
    | WriteCharOp(ch: char)
    | WriteOp(s: string)
    | WriteLineOp
    | WriteOpCodeOp(name: string, omitSuffix: bool)
    | WriteReferenceOp(text: string)
    | FoldOp

  /** The indentation a write is about to emit. */
  function Pending(st: OutputState): string
  {
    if st.needsIndent then Repeat(st.indentation, st.indent) else ""
  }

  /** A write: the pending indentation, then the text; nothing is pending afterwards. */
  function Written(st: OutputState, s: string): OutputState
  {
    st.(text := st.text + Pending(st) + s, needsIndent := false)
  }

  /**
   * The part of an opcode's name `WriteReference` writes: the whole name, or with `omitSuffix`
   * the name through its last '.', and nothing when that dot is missing or first.
   */
  function OpCodeText(name: string, omitSuffix: bool): (r: Option<string>)
    ensures !omitSuffix ==> r == Some(name)
    ensures omitSuffix && r.Some? ==>
              && 2 <= |r.value| <= |name| && r.value == name[..|r.value|]
              && r.value[|r.value| - 1] == '.' && '.' !in name[|r.value|..]
    ensures omitSuffix && r.None? ==> forall k :: 0 < k < |name| ==> name[k] != '.'
  {
    if !omitSuffix then Some(name)
    else
      var lastDot := LastIndexOfChar(name, '.');
      if lastDot > 0 then Some(name[..lastDot + 1]) else None
  }

  /** One call's effect on the state. */
  function Step(st: OutputState, op: Op): OutputState
  {
    match op
    case IndentOp => st.(indent := st.indent + 1)
    case UnindentOp => st.(indent := st.indent - 1)
    case WriteCharOp(ch) => Written(st, [ch])
    case WriteOp(s) => Written(st, s)
    case WriteLineOp => st.(text := st.text + "\n", needsIndent := true)
    case WriteOpCodeOp(name, omitSuffix) =>
      (match OpCodeText(name, omitSuffix)
       case Some(t) => Written(st, t)
       case None => st)
    case WriteReferenceOp(text) => Written(st, text)
    case FoldOp => st
  }

  /** The calls made one after another. */
  function Run(st: OutputState, ops: seq<Op>): OutputState
    decreases |ops|
  {
    if |ops| == 0 then st else Run(Step(st, ops[0]), ops[1..])
  }

  /** The state of a fresh output over a builder holding `text`. */
  function Initial(text: string): OutputState
  {
    OutputState(text, 0, false, "\t")
  }

  // ---------------------------------------------------------------------------------------
  // Properties

  /** The indentation is exactly `n` copies of the string: its length is `n` times the string's, and copy `j` sits after `j` copies. */
  lemma {:induction false} RepeatSpec(s: string, n: int)
    ensures |Repeat(s, n)| == (if n <= 0 then 0 else n * |s|)
    ensures forall j :: 0 <= j < n ==> Repeat(s, n) == Repeat(s, j) + s + Repeat(s, n - j - 1)
  {
    if n > 0 {
      RepeatSpec(s, n - 1);
      var r := Repeat(s, n - 1);
      assert Repeat(s, n) == r + s;
      assert n * |s| == (n - 1) * |s| + |s|;
      forall j | 0 <= j < n ensures Repeat(s, n) == Repeat(s, j) + s + Repeat(s, n - j - 1) {
        if j < n - 1 {
          var front, tail := Repeat(s, j) + s, Repeat(s, n - j - 2);
          assert r == front + tail;
          assert Repeat(s, n - j - 1) == tail + s;
          assert (front + tail) + s == front + (tail + s);
        }
      }
    }
  }

  /** Output is append-only: whatever the calls, the old text stays a prefix, and the indentation string is kept. */
  lemma {:induction false} AppendOnly(st: OutputState, ops: seq<Op>)
    ensures |st.text| <= |Run(st, ops).text| && Run(st, ops).text[..|st.text|] == st.text
    ensures Run(st, ops).indentation == st.indentation
    decreases |ops|
  {
    if |ops| > 0 {
      var next := Step(st, ops[0]);
      assert |st.text| <= |next.text| && next.text[..|st.text|] == st.text;
      AppendOnly(next, ops[1..]);
      var last := Run(next, ops[1..]).text;
      assert last[..|st.text|] == last[..|next.text|][..|st.text|];
    }
  }

  /** Indent and Unindent move the level by exactly one, without bound, and undo each other. */
  lemma IndentLevels(st: OutputState)
    ensures Step(st, IndentOp).indent == st.indent + 1 && Step(st, UnindentOp).indent == st.indent - 1
    ensures Step(Step(st, IndentOp), UnindentOp) == st && Step(Step(st, UnindentOp), IndentOp) == st
    ensures Step(st, IndentOp).text == st.text && Step(st, UnindentOp).text == st.text
  {
  }

  /** What a call writes when no indentation is pending. */
  function OpText(op: Op): string
  {
    match op
    case WriteCharOp(ch) => [ch]
    case WriteOp(s) => s
    case WriteOpCodeOp(name, omitSuffix) => OpCodeText(name, omitSuffix).GetOr("")
    case WriteReferenceOp(text) => text
    case _ => ""
  }

  /** Texts written by the calls, in order. */
  function WrittenTexts(ops: seq<Op>): string
  {
    if |ops| == 0 then "" else OpText(ops[0]) + WrittenTexts(ops[1..])
  }

  /** Until a line break is written nothing is indented: the output gains just the texts written. */
  lemma {:induction false} NoIndentBeforeLine(st: OutputState, ops: seq<Op>)
    requires !st.needsIndent
    requires forall k :: 0 <= k < |ops| ==> ops[k] != WriteLineOp
    ensures Run(st, ops).text == st.text + WrittenTexts(ops)
    ensures !Run(st, ops).needsIndent
    decreases |ops|
  {
    if |ops| > 0 {
      var next := Step(st, ops[0]);
      StepUnindented(st, ops[0]);
      forall k | 0 <= k < |ops[1..]| ensures ops[1..][k] != WriteLineOp {
        assert ops[1..][k] == ops[k + 1];
      }
      NoIndentBeforeLine(next, ops[1..]);
      assert st.text + OpText(ops[0]) + WrittenTexts(ops[1..]) == st.text + WrittenTexts(ops);
    }
  }

  lemma StepUnindented(st: OutputState, op: Op)
    requires !st.needsIndent && op != WriteLineOp
    ensures Step(st, op).text == st.text + OpText(op) && !Step(st, op).needsIndent
  {
    assert Pending(st) == "";
  }

  /** A fresh output holds, until its first line break, just what was written to it. */
  lemma FreshOutput(text: string, ops: seq<Op>)
    requires forall k :: 0 <= k < |ops| ==> ops[k] != WriteLineOp
    ensures Run(Initial(text), ops).text == text + WrittenTexts(ops)
  {
    NoIndentBeforeLine(Initial(text), ops);
  }

  /**
   * A line break writes only "\n"; the first write after it starts with exactly the level's
   * worth of indentation, and the next write on the same line gets none.
   */
  lemma IndentOncePerLine(st: OutputState, a: string, b: string)
    ensures
      var broken := Step(st, WriteLineOp);
      var first := Step(broken, WriteOp(a));
      var second := Step(first, WriteOp(b));
      && broken.text == st.text + "\n" && broken.needsIndent
      && first.text == st.text + "\n" + Repeat(st.indentation, st.indent) + a && !first.needsIndent
      && second.text == first.text + b
  {
  }

  // ---------------------------------------------------------------------------------------
  // The class

  class StringBuilderTextOutput {
    const builder: StringBuilder
    var indent: int
    var needsIndent: bool
    /** `IndentationString`, a tab unless set. */
    var indentation: string

    function State(): OutputState
      reads this, builder
    {
      OutputState(builder.text, indent, needsIndent, indentation)
    }

    constructor (b: StringBuilder)
      ensures builder == b && State() == Initial(b.text)
    {
      builder := b;
      indent := 0;
      needsIndent := false;
      indentation := "\t";
    }

    method ToString() returns (s: string)
      ensures s == State().text
    {
      s := builder.text;
    }

    method Indent()
      modifies this
      ensures State() == Step(old(State()), IndentOp)
    {
      indent := indent + 1;
    }

    method Unindent()
      modifies this
      ensures State() == Step(old(State()), UnindentOp)
    {
      indent := indent - 1;
    }

    /** Writes the pending indentation, one copy of the indentation string per level. */
    method AppendIndentation()
      modifies this, builder
      ensures builder.text == old(builder.text) + Pending(old(State()))
      ensures indent == old(indent) && indentation == old(indentation) && !needsIndent
    {
      if needsIndent {
        var i := 0;
        while i < indent
          invariant 0 <= i && (indent > 0 ==> i <= indent) && (indent <= 0 ==> i == 0)
          invariant builder.text == old(builder.text) + Repeat(indentation, i)
          invariant indent == old(indent) && indentation == old(indentation) && needsIndent
        {
          builder.Append(indentation);
          i := i + 1;
        }
        assert Repeat(indentation, i) == Repeat(indentation, indent);
        needsIndent := false;
      }
    }

    method WriteChar(ch: char)
      modifies this, builder
      ensures State() == Step(old(State()), WriteCharOp(ch))
    {
      AppendIndentation();
      builder.Append([ch]);
    }

    method Write(text: string)
      modifies this, builder
      ensures State() == Step(old(State()), WriteOp(text))
    {
      AppendIndentation();
      builder.Append(text);
    }

    method WriteLine()
      modifies this, builder
      ensures State() == Step(old(State()), WriteLineOp)
    {
      builder.Append("\n");
      needsIndent := true;
    }

    /** An opcode's name, or with `omitSuffix` its prefix through the last '.'. */
    method WriteOpCode(name: string, omitSuffix: bool)
      modifies this, builder
      ensures State() == Step(old(State()), WriteOpCodeOp(name, omitSuffix))
    {
      if omitSuffix {
        var lastDot := LastIndexOfChar(name, '.');
        if lastDot > 0 {
          Write(name[..lastDot + 1]);
        }
      } else {
        Write(name);
      }
    }

    /** The module, type, member and local references: the text alone. */
    method WriteReference(text: string)
      modifies this, builder
      ensures State() == Step(old(State()), WriteReferenceOp(text))
    {
      Write(text);
    }

    /**
     * `MarkFoldStart` and `MarkFoldEnd`: both are no-ops, so the method changes nothing and its
     * step, `FoldOp`, leaves every state as it is.
     */
    method MarkFold()
      ensures State() == Step(State(), FoldOp)
    {
    }
  }
}
