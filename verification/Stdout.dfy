/**
 The line buffer behind the standard output of the Go program: text is held back until a newline arrives,
 and then everything up to the last newline is logged in one call. Buffers arrive already decoded.
 */
module Stdout {
  import opened Prelude

  const NEWLINE := '\n'

  /** The position of the last newline, if any. */
  function LastNewline(s: string): (r: Option<nat>)
    ensures r.None? ==> NEWLINE !in s
    ensures r.Some? ==> r.value < |s| && s[r.value] == NEWLINE && NEWLINE !in s[r.value + 1..]
  {
    if s == [] then None
    else if s[|s| - 1] == NEWLINE then Some(|s| - 1)
    else
      assert s == s[..|s| - 1] + [s[|s| - 1]];
      var r := LastNewline(s[..|s| - 1]);
      assert r.Some? ==> s[r.value + 1..] == s[..|s| - 1][r.value + 1..] + [s[|s| - 1]];
      r
  }

  /** Logged texts, in order, and the text held back. */
  datatype Output = Output(log: seq<string>, buffer: string)

  function Terminated(log: seq<string>): seq<string> {
    if log == [] then [] else [log[0] + [NEWLINE]] + Terminated(log[1..])
  }

  /** Everything a reader of the log has been shown: each logged text on lines of its own. */
  function Shown(log: seq<string>): string {
    Flatten(Terminated(log))
  }

  function Write(out: Output, text: string): Output {
    var pending := out.buffer + text;
    match LastNewline(pending)
    case None => Output(out.log, pending)
    case Some(nl) => Output(out.log + [pending[..nl]], pending[nl + 1..])
  }

  function WriteAll(out: Output, texts: seq<string>): Output
    decreases |texts|
  {
    if texts == [] then out else WriteAll(Write(out, texts[0]), texts[1..])
  }

  lemma {:induction false} TerminatedSnoc(log: seq<string>, last: string)
    ensures Terminated(log + [last]) == Terminated(log) + [last + [NEWLINE]]
  {
    if log != [] {
      assert (log + [last])[1..] == log[1..] + [last];
      TerminatedSnoc(log[1..], last);
    }
  }

  /** One write neither loses nor reorders text, and never holds back a newline. */
  lemma WriteConserves(out: Output, text: string)
    ensures Shown(Write(out, text).log) + Write(out, text).buffer == Shown(out.log) + out.buffer + text
    ensures NEWLINE !in Write(out, text).buffer
  {
    hide Flatten, Terminated, LastNewline;
    var pending := out.buffer + text;
    match LastNewline(pending)
    case None =>
    case Some(nl) =>
      TerminatedSnoc(out.log, pending[..nl]);
      FlattenSnoc(Terminated(out.log), pending[..nl] + [NEWLINE]);
      assert pending == pending[..nl] + [NEWLINE] + pending[nl + 1..];
  }

  lemma {:induction false} LastNewlineIs(front: string, rest: string)
    requires '\n' !in rest
    ensures LastNewline(front + "\n" + rest) == Some(|front|)
    decreases |rest|
  {
    var s := front + "\n" + rest;
    if rest == "" {
      assert s == front + "\n";
    } else {
      var init := rest[..|rest| - 1];
      assert s[..|s| - 1] == front + "\n" + init;
      assert s[|s| - 1] == rest[|rest| - 1];
      LastNewlineIs(front, init);
    }
  }

  /** The lines of a text up to its last newline are logged together, after what was held back; what follows is held
      back, and so is a text without a newline. */
  lemma WriteSplits(out: Output, lines: string, rest: string)
    requires '\n' !in out.buffer && '\n' !in rest
    ensures Write(out, lines + "\n" + rest) == Output(out.log + [out.buffer + lines], rest)
    ensures Write(out, rest) == Output(out.log, out.buffer + rest)
  {
    hide LastNewline;
    assert LastNewline(out.buffer + rest).None?;
    var front := out.buffer + lines;
    assert out.buffer + (lines + "\n" + rest) == front + "\n" + rest;
    LastNewlineIs(front, rest);
    assert (front + "\n" + rest)[..|front|] == front && (front + "\n" + rest)[|front| + 1..] == rest;
  }

  lemma {:induction false} WriteAllConserves(out: Output, texts: seq<string>)
    requires NEWLINE !in out.buffer
    ensures var r := WriteAll(out, texts);
            && Shown(r.log) + r.buffer == Shown(out.log) + out.buffer + Flatten(texts)
            && NEWLINE !in r.buffer
    decreases |texts|
  {
    if texts != [] {
      WriteConserves(out, texts[0]);
      WriteAllConserves(Write(out, texts[0]), texts[1..]);
    }
  }

  lemma {:induction false} ShownEndsLine(log: seq<string>)
    ensures Shown(log) == [] || Shown(log)[|Shown(log)| - 1] == NEWLINE
    decreases |log|
  {
    if log != [] {
      var init, last := log[..|log| - 1], log[|log| - 1];
      assert log == init + [last];
      TerminatedSnoc(init, last);
      FlattenSnoc(Terminated(init), last + [NEWLINE]);
    }
  }

  lemma LastOfLongerIsInRest(a: string, x: string, b: string, y: string)
    requires a + x == b + y && |a| < |b|
    ensures b[|b| - 1] in x
  {
    assert x[|b| - 1 - |a|] == (a + x)[|b| - 1] == b[|b| - 1];
  }

  /** A text has at most one division into whole lines and a rest without a newline. */
  lemma DivisionUnique(a: string, x: string, b: string, y: string)
    requires a + x == b + y && NEWLINE !in x && NEWLINE !in y
    requires a == [] || a[|a| - 1] == NEWLINE
    requires b == [] || b[|b| - 1] == NEWLINE
    ensures a == b && x == y
  {
    if |a| < |b| {
      LastOfLongerIsInRest(a, x, b, y);
      assert false;
    } else if |b| < |a| {
      LastOfLongerIsInRest(b, y, a, x);
      assert false;
    } else {
      assert a == (a + x)[..|a|] && b == (b + y)[..|b|];
      assert x == (a + x)[|a|..] && y == (b + y)[|b|..];
    }
  }

  /** However a text is cut into writes, what is shown and what is held back are the same. */
  lemma ChunkingIrrelevant(one: seq<string>, other: seq<string>)
    requires Flatten(one) == Flatten(other)
    ensures var a, b := WriteAll(Output([], ""), one), WriteAll(Output([], ""), other);
            Shown(a.log) == Shown(b.log) && a.buffer == b.buffer
  {
    var start := Output([], "");
    var a, b := WriteAll(start, one), WriteAll(start, other);
    WriteAllConserves(start, one);
    WriteAllConserves(start, other);
    ShownEndsLine(a.log);
    ShownEndsLine(b.log);
    DivisionUnique(Shown(a.log), a.buffer, Shown(b.log), b.buffer);
  }

  class Fs {
    var outputBuf: string
    ghost var log: seq<string>  // the texts given to console.log so far

    constructor ()
      ensures outputBuf == "" && log == []
    {
      outputBuf, log := "", [];
    }

    method WriteSync(text: string)
      modifies this
      ensures Output(log, outputBuf) == Write(Output(old(log), old(outputBuf)), text)
    {
      outputBuf := outputBuf + text;
      var nl := LastNewline(outputBuf);
      if nl.Some? {
        log := log + [outputBuf[..nl.value]];
        outputBuf := outputBuf[nl.value + 1..];
      }
    }
  }
}
