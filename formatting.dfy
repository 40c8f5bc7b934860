/** The colourless formatting helpers of `src/format.rs`: the indentation of multi-line
    messages, the bar drawn next to a job's hours, and the pay text. */
module Formatting {
  import opened Wrappers
  import opened Text
  import opened Configurations

  // ---- messages ----

  /** The separator put before every line after the first: a line break, then `indent` spaces. */
  function LineBreak(indent: nat): (r: string)
    ensures |r| == indent + 1 && r[0] == '\n'
    ensures forall i :: 1 <= i <= indent ==> r[i] == ' '
  {
    "\n" + Repeat(' ', indent)
  }

  /** What the message loop has built after the given lines: a line is appended as it is while
      nothing has been built yet, and after a line break otherwise. */
  function Built(lines: seq<string>, indent: nat): string
  {
    if lines == [] then []
    else
      var output := Built(lines[..|lines| - 1], indent);
      var line := lines[|lines| - 1];
      if output == [] then line else output + LineBreak(indent) + line
  }

  /** `message`: the lines of `message` (split at '\n'), each after the first on a new line
      indented by `indent` spaces. */
  method Message(message: string, indent: nat) returns (output: string)
    ensures output == Built(Split(message, '\n'), indent)
  {
    output := [];
    var lines := Split(message, '\n');
    for i := 0 to |lines|
      invariant output == Built(lines[..i], indent)
    {
      assert lines[..i + 1][..i] == lines[..i];
      if output == [] {
        output := output + lines[i];
      } else {
        output := output + "\n";
        for k := 0 to indent
          invariant output == Built(lines[..i], indent) + "\n" + Repeat(' ', k)
        {
          RepeatOneMore(' ', k);
          output := output + " ";
        }
        output := output + lines[i];
      }
    }
    assert lines[..|lines|] == lines;
  }

  lemma RepeatOneMore(c: char, n: nat)
    ensures Repeat(c, n + 1) == Repeat(c, n) + [c]
  {
    assert Repeat(c, n + 1) == Repeat(c, n) + [c];
  }

  /** The lines after dropping the leading empty ones. */
  function DropEmpty(lines: seq<string>): (r: seq<string>)
    ensures r != [] ==> r[0] != []
    ensures |r| <= |lines| && r == lines[|lines| - |r|..]
  {
    if lines == [] then []
    else if lines[0] == [] then DropEmpty(lines[1..])
    else lines
  }

  /** The lines joined with `sep` between consecutive ones. */
  function JoinWith(lines: seq<string>, sep: string): string
    requires lines != []
  {
    if |lines| == 1 then lines[0] else JoinWith(lines[..|lines| - 1], sep) + sep + lines[|lines| - 1]
  }

  /** Appending a line after the leading empty ones are dropped. */
  lemma {:induction false} DropEmptyAppend(lines: seq<string>, line: string)
    ensures DropEmpty(lines + [line]) ==
      if DropEmpty(lines) == [] then (if line == [] then [] else [line]) else DropEmpty(lines) + [line]
  {
    if lines == [] {
      assert lines + [line] == [line];
      assert [line][1..] == [];
    } else {
      assert (lines + [line])[1..] == lines[1..] + [line];
      if lines[0] == [] {
        DropEmptyAppend(lines[1..], line);
      }
    }
  }

  /** The message loop drops the leading empty lines (its test for the first line is that
      nothing has been built yet) and joins the others with an indented line break: the first
      non-empty line comes out as it is, every later line, empty or not, on its own indented
      line, in order. */
  lemma {:induction false} BuiltIsIndentedJoin(lines: seq<string>, indent: nat)
    ensures Built(lines, indent) ==
      if DropEmpty(lines) == [] then [] else JoinWith(DropEmpty(lines), LineBreak(indent))
    decreases |lines|
  {
    if lines != [] {
      var init, line := lines[..|lines| - 1], lines[|lines| - 1];
      assert lines == init + [line];
      BuiltIsIndentedJoin(init, indent);
      DropEmptyAppend(init, line);
      var dropped := DropEmpty(init);
      if dropped != [] {
        var joined := dropped + [line];
        assert joined[..|joined| - 1] == dropped;
        assert Built(init, indent) != [] by {
          NonEmptyJoin(dropped, LineBreak(indent));
        }
      }
    }
  }

  /** Joined lines that start with a non-empty line are not empty. */
  lemma {:induction false} NonEmptyJoin(lines: seq<string>, sep: string)
    requires lines != [] && lines[0] != []
    ensures JoinWith(lines, sep) != []
    decreases |lines|
  {
    if |lines| > 1 {
      NonEmptyJoin(lines[..|lines| - 1], sep);
    }
  }

  /** A message without a line break comes out unchanged. */
  lemma SingleLineUnchanged(message: string, indent: nat)
    requires '\n' !in message
    ensures Built(Split(message, '\n'), indent) == message
  {
    SplitNoSeparator(message, '\n');
    assert [message][..0] == [];
  }

  /** Two lines: the second comes after a line break and `indent` spaces. */
  lemma TwoLines(first: string, second: string, indent: nat)
    requires first != [] && '\n' !in first && '\n' !in second
    ensures Built(Split(first + "\n" + second, '\n'), indent) == first + "\n" + Repeat(' ', indent) + second
  {
    var lines := [first, second];
    assert Join(lines, '\n') == first + "\n" + second by {
      assert lines[1..] == [second];
    }
    SplitJoin(lines, '\n');
    BuiltIsIndentedJoin(lines, indent);
    assert DropEmpty(lines) == lines;
    assert lines[..1] == [first];
  }

  /** Leading empty lines are dropped: the message "\nbody" comes out as "body". */
  lemma LeadingBreakDropped(body: string, indent: nat)
    requires body != [] && '\n' !in body
    ensures Built(Split("\n" + body, '\n'), indent) == body
  {
    var lines := ["", body];
    assert Join(lines, '\n') == "\n" + body;
    SplitJoin(lines, '\n');
    BuiltIsIndentedJoin(lines, indent);
    assert lines[1..] == [body];
  }

  // ---- the hours bar ----

  /** The fractional part of a non-negative number (`f64::fract`). */
  function Fract(hours: real): (f: real)
    requires hours >= 0.0
    ensures 0.0 <= f < 1.0
  {
    hours - hours.Floor as real
  }

  /** The inner `bar` of `hours_bar`: nothing unless 0 < hours < 24; otherwise a space, one '+'
      per whole hour (`hours as usize` truncates, which is the floor for a positive number),
      then '+' for a fraction above a half, '-' for one above a quarter. */
  function Bar(hours: real): (r: string)
    ensures r == [] <==> !(0.0 < hours < 24.0)
    ensures r != [] ==> r[0] == ' ' && |r| <= 25
    ensures 0.0 < hours < 24.0 ==> |r| == 1 + hours.Floor + (if Fract(hours) > 0.25 then 1 else 0)
    ensures 0.0 < hours < 24.0 ==> forall i :: 1 <= i <= hours.Floor ==> r[i] == '+'
    ensures 0.0 < hours < 24.0 && Fract(hours) > 0.5 ==> r[1 + hours.Floor] == '+'
    ensures 0.0 < hours < 24.0 && 0.25 < Fract(hours) <= 0.5 ==> r[1 + hours.Floor] == '-'
  {
    if 0.0 < hours < 24.0 then
      var whole := hours.Floor;
      var tail := if Fract(hours) > 0.5 then "+" else if Fract(hours) > 0.25 then "-" else "";
      " " + Repeat('+', whole) + tail
    else
      ""
  }

  /** What a bar stands for: an hour per '+', half an hour per '-'. */
  function BarValue(s: string): real
  {
    if s == [] then 0.0
    else (if s[0] == '+' then 1.0 else if s[0] == '-' then 0.5 else 0.0) + BarValue(s[1..])
  }

  lemma {:induction false} BarValueAppend(a: string, b: string)
    ensures BarValue(a + b) == BarValue(a) + BarValue(b)
    decreases |a|
  {
    if a == [] {
      assert a + b == b;
    } else {
      assert (a + b)[1..] == a[1..] + b;
      BarValueAppend(a[1..], b);
    }
  }

  lemma {:induction false} BarValueRepeat(n: nat)
    ensures BarValue(Repeat('+', n)) == n as real
    decreases n
  {
    if n > 0 {
      assert Repeat('+', n)[1..] == Repeat('+', n - 1);
      BarValueRepeat(n - 1);
    }
  }

  /** A drawn bar is within half an hour of the hours it stands for, and never above them by
      half an hour or more. */
  lemma BarApproximates(hours: real)
    requires 0.0 < hours < 24.0
    ensures hours - 0.25 <= BarValue(Bar(hours)) < hours + 0.5
  {
    var whole := hours.Floor;
    var tail := if Fract(hours) > 0.5 then "+" else if Fract(hours) > 0.25 then "-" else "";
    BarValueAppend(" ", Repeat('+', whole));
    BarValueAppend(" " + Repeat('+', whole), tail);
    BarValueRepeat(whole);
    assert BarValue(" ") == 0.0;
    assert BarValue(tail) == if Fract(hours) > 0.5 then 1.0 else if Fract(hours) > 0.25 then 0.5 else 0.0;
  }

  /** `hours_bar`: without colours both branches of the limit test draw the same bar. */
  function HoursBar(hours: real, properties: Properties): (r: string)
    ensures r == Bar(hours)
  {
    if properties.maxHours.Some? && hours > properties.maxHours.value as real then Bar(hours) else Bar(hours)
  }

  /** The limit makes no difference to the bar. */
  lemma HoursBarIgnoresLimit(hours: real, p: Properties, q: Properties)
    ensures HoursBar(hours, p) == HoursBar(hours, q) == Bar(hours)
  {
  }

  // ---- pay ----

  /** `pay`: the payment text `payText(rate * hours)` (`pay_pure`, a thousands-separated number
      here given as a parameter), or nothing without a rate. */
  function Pay(hours: real, properties: Properties, payText: real -> string): (r: string)
    ensures properties.rate.None? ==> r == []
    ensures properties.rate.Some? ==> r == payText(properties.rate.value * hours)
  {
    if properties.rate.Some? then payText(properties.rate.value * hours) else ""
  }

  /** Since a rendered number is never empty, the pay text is empty exactly without a rate. */
  lemma PayEmptyIffNoRate(hours: real, properties: Properties, payText: real -> string)
    requires forall x :: payText(x) != []
    ensures Pay(hours, properties, payText) == [] <==> properties.rate.None?
  {
  }
}
