/** Standard output and error routed to the system log (src/runtime/stderr_to_klog.c): a byte stream
    is cut into lines, lines into buffers of 512 bytes, and buffers into messages of 96. */
module LineLog {
  const CHUNK: nat := 96
  const LINE_MAX: nat := 512

  /** The buffered part of the current line, and the messages handed to the log. */
  datatype State = State(pending: string, sent: seq<string>)

  const START := State("", [])

  function Cut(text: string, size: nat): (pieces: seq<string>)
    requires size > 0
    ensures forall i :: 0 <= i < |pieces| ==> 1 <= |pieces[i]| <= size
    ensures text == "" <==> pieces == []
    decreases |text|
  {
    if text == "" then []
    else if |text| <= size then [text]
    else [text[..size]] + Cut(text[size..], size)
  }

  function Flush(s: State): State {
    State("", s.sent + Cut(s.pending, CHUNK))
  }

  function Put(s: State, c: char): State {
    if c == '\n' then Flush(s)
    else if c == '\r' then s
    else if |s.pending| == LINE_MAX then State([c], Flush(s).sent)
    else State(s.pending + [c], s.sent)
  }

  function Append(s: State, text: string): State
    decreases |text|
  {
    if text == "" then s else Append(Put(s, text[0]), text[1..])
  }

  // ---- The buffer in place --------------------------------------------------------------------

  class Log {
    const line: array<char>
    var len: nat
    var sent: seq<string> // what oops_klog was called with

    ghost predicate Valid()
      reads this
    {
      line.Length == LINE_MAX && len <= LINE_MAX
    }

    ghost function Abs(): State
      requires Valid()
      reads this, line
    {
      State(line[..len], sent)
    }

    constructor ()
      ensures Valid() && fresh(line) && Abs() == START
    {
      line := new char[LINE_MAX](_ => ' ');
      len := 0;
      sent := [];
    }

    method KlogChunks(n: nat)
      requires Valid() && n <= LINE_MAX
      modifies this`sent
      ensures sent == old(sent) + Cut(line[..n], CHUNK)
    {
      var at := 0;
      while at < n
        invariant at <= n
        invariant sent + Cut(line[at..n], CHUNK) == old(sent) + Cut(line[..n], CHUNK)
      {
        var k := n - at;
        if k > CHUNK {
          k := CHUNK;
        }
        assert line[at..n][k..] == line[at + k..n] && line[at..n][..k] == line[at..at + k];
        sent := sent + [line[at..at + k]];
        at := at + k;
      }
    }

    method LineFlush()
      requires Valid()
      modifies this
      ensures Valid() && Abs() == Flush(old(Abs()))
    {
      if len > 0 {
        KlogChunks(len);
        len := 0;
      }
    }

    method LineAppend(text: string)
      requires Valid()
      modifies this, line
      ensures Valid() && Abs() == Append(old(Abs()), text)
    {
      for i := 0 to |text|
        invariant Valid() && Append(Abs(), text[i..]) == Append(old(Abs()), text)
      {
        var c := text[i];
        ghost var before := Abs();
        assert text[i..][1..] == text[i + 1..];
        if c == '\n' {
          LineFlush();
          continue;
        }
        if c == '\r' {
          continue;
        }
        if len == line.Length {
          LineFlush();
        }
        ghost var mid := Abs();
        line[len] := c;
        len := len + 1;
        assert line[..len] == mid.pending + [c];
        assert Abs() == Put(before, c);
      }
    }
  }

  // ---- Conservation ---------------------------------------------------------------------------

  function Join(pieces: seq<string>): string {
    if pieces == [] then "" else pieces[0] + Join(pieces[1..])
  }

  /** The text without carriage returns and newlines. */
  function Strip(text: string): string {
    if text == "" then ""
    else (if text[0] == '\n' || text[0] == '\r' then "" else [text[0]]) + Strip(text[1..])
  }

  function Content(s: State): string {
    Join(s.sent) + s.pending
  }

  lemma {:induction false} JoinAppend(a: seq<string>, b: seq<string>)
    ensures Join(a + b) == Join(a) + Join(b)
  {
    if a == [] {
      assert a + b == b;
    } else {
      assert (a + b)[1..] == a[1..] + b;
      JoinAppend(a[1..], b);
    }
  }

  lemma {:induction false} JoinCut(text: string, size: nat)
    requires size > 0
    ensures Join(Cut(text, size)) == text
    decreases |text|
  {
    if |text| > size {
      JoinCut(text[size..], size);
      assert text == text[..size] + text[size..];
    } else if text != "" {
      assert [text][1..] == [];
    }
  }

  /** Pieces are cut as late as possible: piece `i` is what stands at `i * size`, whole but for the end. */
  lemma {:induction false} CutAt(text: string, size: nat, i: nat)
    requires size > 0
    ensures i < |Cut(text, size)| <==> i * size < |text|
    ensures i < |Cut(text, size)| ==>
      Cut(text, size)[i] == if (i + 1) * size <= |text| then text[i * size..(i + 1) * size] else text[i * size..]
    decreases |text|
  {
    if i > 0 {
      assert i * size >= size;
    }
    if |text| > size && i > 0 {
      CutAt(text[size..], size, i - 1);
      assert (i - 1) * size + size == i * size && i * size + size == (i + 1) * size;
    }
  }

  lemma FlushConserves(s: State)
    ensures Content(Flush(s)) == Content(s)
  {
    JoinAppend(s.sent, Cut(s.pending, CHUNK));
    JoinCut(s.pending, CHUNK);
  }

  lemma PutConserves(s: State, c: char)
    ensures Content(Put(s, c)) == Content(s) + Strip([c])
  {
    FlushConserves(s);
    StripOne(c);
    if c == '\n' || c == '\r' {
      assert Content(s) + "" == Content(s);
    } else if |s.pending| == LINE_MAX {
      assert Join(Flush(s).sent) + "" == Join(Flush(s).sent);
    } else {
      assert Join(s.sent) + (s.pending + [c]) == (Join(s.sent) + s.pending) + [c];
    }
  }

  lemma StripOne(c: char)
    ensures Strip([c]) == if c == '\n' || c == '\r' then "" else [c]
  {
  }

  datatype Op = Write(text: string) | FlushPartial

  function Apply(s: State, op: Op): State {
    match op
    case Write(text) => Append(s, text)
    case FlushPartial => Flush(s)
  }

  function Run(s: State, ops: seq<Op>): State
    decreases |ops|
  {
    if ops == [] then s else Run(Apply(s, ops[0]), ops[1..])
  }

  function Written(ops: seq<Op>): string {
    if ops == [] then "" else (if ops[0].Write? then ops[0].text else "") + Written(ops[1..])
  }

  lemma {:induction false} StripAppend(a: string, b: string)
    ensures Strip(a + b) == Strip(a) + Strip(b)
  {
    if a == "" {
      assert a + b == b;
    } else {
      assert (a + b)[1..] == a[1..] + b;
      StripAppend(a[1..], b);
    }
  }

  lemma {:induction false} AppendConserves(s: State, text: string)
    ensures Content(Append(s, text)) == Content(s) + Strip(text)
    decreases |text|
  {
    if text != "" {
      PutConserves(s, text[0]);
      AppendConserves(Put(s, text[0]), text[1..]);
      StripAppend([text[0]], text[1..]);
      assert [text[0]] + text[1..] == text;
    }
  }

  /** Over every run of writes and flushes, the messages followed by the buffer are the bytes
      written, in order, without carriage returns and newlines. */
  lemma {:induction false} Conservation(s: State, ops: seq<Op>)
    ensures Content(Run(s, ops)) == Content(s) + Strip(Written(ops))
    decreases |ops|
  {
    if ops != [] {
      Conservation(Apply(s, ops[0]), ops[1..]);
      FlushConserves(s);
      if ops[0].Write? {
        AppendConserves(s, ops[0].text);
        StripAppend(ops[0].text, Written(ops[1..]));
      } else {
        assert "" + Written(ops[1..]) == Written(ops[1..]);
      }
    }
  }

  // ---- Shape of the messages ------------------------------------------------------------------

  predicate Plain(text: string) {
    forall i :: 0 <= i < |text| ==> text[i] != '\n' && text[i] != '\r'
  }

  ghost predicate Shaped(s: State) {
    && |s.pending| <= LINE_MAX && Plain(s.pending)
    && forall i :: 0 <= i < |s.sent| ==> 1 <= |s.sent[i]| <= CHUNK && Plain(s.sent[i])
  }

  lemma {:induction false} CutPlain(text: string, size: nat)
    requires size > 0 && Plain(text)
    ensures forall i :: 0 <= i < |Cut(text, size)| ==> Plain(Cut(text, size)[i])
    decreases |text|
  {
    if |text| > size {
      CutPlain(text[size..], size);
    }
  }

  lemma PutShaped(s: State, c: char)
    requires Shaped(s)
    ensures Shaped(Put(s, c)) && Shaped(Flush(s))
  {
    CutPlain(s.pending, CHUNK);
  }

  lemma {:induction false} AppendShaped(s: State, text: string)
    requires Shaped(s)
    ensures Shaped(Append(s, text))
    decreases |text|
  {
    if text != "" {
      PutShaped(s, text[0]);
      AppendShaped(Put(s, text[0]), text[1..]);
    }
  }

  /** Over every run each message has 1 to 96 bytes and holds no line ending, and the buffer never
      overflows. */
  lemma {:induction false} MessagesAreShaped(s: State, ops: seq<Op>)
    requires Shaped(s)
    ensures Shaped(Run(s, ops))
    decreases |ops|
  {
    if ops != [] {
      PutShaped(s, ' ');
      if ops[0].Write? { AppendShaped(s, ops[0].text); }
      MessagesAreShaped(Apply(s, ops[0]), ops[1..]);
    }
  }

  /** The state does not depend on how the input was split into calls. */
  lemma {:induction false} SplitsDoNotMatter(s: State, a: string, b: string)
    ensures Append(Append(s, a), b) == Append(s, a + b)
    decreases |a|
  {
    if a == "" {
      assert a + b == b;
    } else {
      assert (a + b)[0] == a[0] && (a + b)[1..] == a[1..] + b;
      SplitsDoNotMatter(Put(s, a[0]), a[1..], b);
    }
  }

  // ---- The messages, line by line -------------------------------------------------------------

  /** The messages of one line: buffers of 512, each cut into messages of 96. */
  function LineMessages(line: string): seq<string>
    decreases |line|
  {
    if |line| <= LINE_MAX then Cut(line, CHUNK)
    else Cut(line[..LINE_MAX], CHUNK) + LineMessages(line[LINE_MAX..])
  }

  function NewlineAt(text: string): (i: nat)
    ensures i <= |text| && (i < |text| ==> text[i] == '\n')
    ensures forall k :: 0 <= k < i ==> text[k] != '\n'
  {
    if text == "" || text[0] == '\n' then 0 else 1 + NewlineAt(text[1..])
  }

  /** What a whole text comes out as, from its lines alone. */
  function TextMessages(text: string): seq<string>
    decreases |text|
  {
    var i := NewlineAt(text);
    if i == |text| then LineMessages(Strip(text))
    else LineMessages(Strip(text[..i])) + TextMessages(text[i + 1..])
  }

  /** A piece of a line goes through the buffer as if the line had been cut afterwards. */
  lemma {:induction false} LineThroughBuffer(s: State, piece: string)
    requires |s.pending| <= LINE_MAX && forall k :: 0 <= k < |piece| ==> piece[k] != '\n'
    ensures Flush(Append(s, piece)) == State("", s.sent + LineMessages(s.pending + Strip(piece)))
    decreases |piece|
  {
    if piece == "" {
      assert s.pending + "" == s.pending;
    } else {
      var c, rest := piece[0], piece[1..];
      LineThroughBuffer(Put(s, c), rest);
      if c == '\r' {
        assert "" + Strip(rest) == Strip(rest);
      } else if |s.pending| < LINE_MAX {
        assert s.pending + [c] + Strip(rest) == s.pending + ([c] + Strip(rest));
      } else {
        var whole := s.pending + ([c] + Strip(rest));
        assert whole[..LINE_MAX] == s.pending && whole[LINE_MAX..] == [c] + Strip(rest);
        var a, b := Cut(s.pending, CHUNK), LineMessages([c] + Strip(rest));
        assert (s.sent + a) + b == s.sent + (a + b);
      }
    }
  }

  lemma {:induction false} TextThroughBuffer(s: State, text: string)
    requires s.pending == ""
    ensures Flush(Append(s, text)) == State("", s.sent + TextMessages(text))
    decreases |text|
  {
    var i := NewlineAt(text);
    if i == |text| {
      LineThroughBuffer(s, text);
      assert "" + Strip(text) == Strip(text);
    } else {
      var a, rest := LineMessages(Strip(text[..i])), text[i + 1..];
      FirstLine(s, text, i);
      TextThroughBuffer(State("", s.sent + a), rest);
      Associate(s.sent, a, TextMessages(rest));
    }
  }

  lemma Associate(a: seq<string>, b: seq<string>, c: seq<string>)
    ensures (a + b) + c == a + (b + c)
  {
  }

  lemma FirstLine(s: State, text: string, i: nat)
    requires s.pending == "" && i == NewlineAt(text) < |text|
    ensures Append(s, text) == Append(State("", s.sent + LineMessages(Strip(text[..i]))), text[i + 1..])
  {
    SplitAtNewline(text, i);
    LineThenNewline(s, text[..i], text[i + 1..]);
  }

  lemma SplitAtNewline(text: string, i: nat)
    requires i < |text| && text[i] == '\n'
    ensures text == text[..i] + ("\n" + text[i + 1..])
  {
  }

  lemma LineThenNewline(s: State, line: string, rest: string)
    requires s.pending == "" && forall k :: 0 <= k < |line| ==> line[k] != '\n'
    ensures Append(s, line + ("\n" + rest)) == Append(State("", s.sent + LineMessages(Strip(line))), rest)
  {
    SplitsDoNotMatter(s, line, "\n" + rest);
    assert ("\n" + rest)[1..] == rest;
    LineThroughBuffer(s, line);
    assert "" + Strip(line) == Strip(line);
  }

  /** The messages of a text written in any pieces and then flushed are those of its lines. */
  lemma MessagesOfText(text: string)
    ensures Flush(Append(START, text)).sent == TextMessages(text)
  {
    TextThroughBuffer(START, text);
    assert [] + TextMessages(text) == TextMessages(text);
  }

  // ---- NUL bytes ------------------------------------------------------------------------------

  /** What the log reads of a message: a C string ends at its first NUL. */
  function Read(message: string): (m: string)
    ensures m <= message
    ensures m == message <==> '\0' !in message
  {
    if message == "" || message[0] == '\0' then "" else [message[0]] + Read(message[1..])
  }

  function ReadAll(messages: seq<string>): seq<string> {
    seq(|messages|, i requires 0 <= i < |messages| => Read(messages[i]))
  }

  lemma {:induction false} ReadLoses(messages: seq<string>)
    ensures |Join(ReadAll(messages))| <= |Join(messages)|
    ensures |Join(ReadAll(messages))| == |Join(messages)| <==> forall i :: 0 <= i < |messages| ==> '\0' !in messages[i]
  {
    if messages != [] {
      ReadLoses(messages[1..]);
      assert ReadAll(messages)[1..] == ReadAll(messages[1..]);
      assert forall i :: 1 <= i < |messages| ==> messages[i] == messages[1..][i - 1];
    }
  }

  lemma ReadAllWhole(messages: seq<string>)
    ensures Join(ReadAll(messages)) == Join(messages) <==> forall i :: 0 <= i < |messages| ==> '\0' !in messages[i]
  {
    ReadLoses(messages);
    if forall i :: 0 <= i < |messages| ==> '\0' !in messages[i] {
      assert ReadAll(messages) == messages;
    }
  }

  lemma {:induction false} NulInJoin(messages: seq<string>)
    ensures '\0' in Join(messages) <==> exists i :: 0 <= i < |messages| && '\0' in messages[i]
  {
    if messages != [] {
      var rest := messages[1..];
      NulInJoin(rest);
      assert forall i :: 0 <= i < |rest| ==> rest[i] == messages[i + 1];
      assert forall i :: 1 <= i < |messages| ==> messages[i] == rest[i - 1];
    }
  }

  lemma {:induction false} NulInStrip(text: string)
    ensures '\0' in Strip(text) <==> '\0' in text
  {
    if text != "" {
      NulInStrip(text[1..]);
      assert text == [text[0]] + text[1..];
    }
  }

  /** What the log shows of a run of writes and flushes, once the last line is flushed. */
  function Shown(ops: seq<Op>): string {
    Join(ReadAll(Flush(Run(START, ops)).sent))
  }

  /** The log shows all that was written but the line endings, in order, if and only if no NUL was
      written: the condition is on the input, whatever its lines, pieces and flushes. */
  lemma NothingLostIffNoNul(ops: seq<Op>)
    ensures Shown(ops) == Strip(Written(ops)) <==> '\0' !in Written(ops)
  {
    var end := Flush(Run(START, ops));
    FlushConserves(Run(START, ops));
    Conservation(START, ops);
    assert Join(end.sent) == Strip(Written(ops)) by {
      assert Join(end.sent) + "" == Join(end.sent);
      assert "" + Strip(Written(ops)) == Strip(Written(ops));
    }
    ReadAllWhole(end.sent);
    NulInJoin(end.sent);
    NulInStrip(Written(ops));
  }

  /** The same of one text in one write. */
  lemma TextShownIffNoNul(text: string)
    ensures Join(ReadAll(Flush(Append(START, text)).sent)) == Strip(text) <==> '\0' !in text
  {
    var ops := [Write(text)];
    assert ops[1..] == [] && Run(Apply(START, ops[0]), []) == Append(START, text);
    assert Written(ops) == text + "" == text;
    NothingLostIffNoNul(ops);
  }

  /** A short line with a NUL is shown up to the NUL. */
  lemma NulCutsTheLine(a: string, b: string)
    requires '\0' !in a && Plain(a) && Plain(b) && |a| + 1 + |b| <= CHUNK
    ensures var text := a + "\0" + b;
      Strip(text) == text && Join(ReadAll(Flush(Append(START, text)).sent)) == a
  {
    var text := a + "\0" + b;
    MessagesOfText(text);
    PlainStrip(text);
    ReadToNul(a, b);
    assert ReadAll([text]) == [a];
    assert [a][1..] == [];
  }

  lemma NulIsLost()
    ensures Join(ReadAll(Flush(Append(START, "ab\0cd")).sent)) == "ab" && Strip("ab\0cd") == "ab\0cd"
  {
    NulCutsTheLine("ab", "cd");
    assert "ab" + "\0" + "cd" == "ab\0cd";
  }

  lemma {:induction false} ReadToNul(a: string, b: string)
    requires '\0' !in a
    ensures Read(a + "\0" + b) == a
  {
    if a != "" {
      assert (a + "\0" + b)[1..] == a[1..] + "\0" + b;
      ReadToNul(a[1..], b);
    }
  }

  lemma {:induction false} PlainStrip(text: string)
    requires Plain(text)
    ensures Strip(text) == text
  {
    if text != "" { PlainStrip(text[1..]); }
  }
}
