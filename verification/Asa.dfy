/** The carriage-control filter: a one-bit delayed newline over a list of files. */
module Asa {

  const NL := '\n'
  const CR := '\r'
  const FF := '\U{0C}'

  // ---- The filter as a machine ----

  /** Output so far; whether the next character starts a line; whether a newline is owed. */
  datatype St = St(out: string, start: bool, need: bool)

  const Init := St("", true, false)

  function Owed(need: bool): string {
    if need then [NL] else ""
  }

  /** What the first character of a line puts out. */
  function Control(c: char, need: bool): string {
    if c == '+' then (if need then [CR] else "")
    else if c == '0' then Owed(need) + [NL]
    else if c == '1' then Owed(need) + [FF]
    else Owed(need)
  }

  function Feed(st: St, c: char): St {
    if st.start then
      if c == NL then St(st.out + Owed(st.need), true, true)
      else St(st.out + Control(c, st.need), false, false)
    else if c == NL then St(st.out, true, true)
    else St(st.out + [c], false, false)
  }

  function FeedAll(st: St, text: string): St
    decreases |text|
  {
    if text == [] then st else FeedAll(Feed(st, text[0]), text[1..])
  }

  /** Between two files. */
  function NextFile(st: St, forms: bool): St {
    if st.start then St(st.out + Owed(st.need) + (if forms then [FF] else ""), true, false)
    else if forms then St(st.out + [NL, FF], true, false)
    else st
  }

  function Finish(st: St): string {
    st.out + Owed(st.need)
  }

  /** The files from here on, the first of them already open. */
  function RunFrom(st: St, files: seq<string>, forms: bool): string
    requires files != []
    decreases |files|
  {
    var after := FeedAll(st, files[0]);
    if |files| == 1 then Finish(after) else RunFrom(NextFile(after, forms), files[1..], forms)
  }

  // ---- The filter line by line ----

  /** The length of the first line, without its newline. */
  function LineEnd(text: string): (n: nat)
    ensures n <= |text| && (forall i :: 0 <= i < n ==> text[i] != NL) && (n < |text| ==> text[n] == NL)
  {
    if text == [] || text[0] == NL then 0 else 1 + LineEnd(text[1..])
  }

  /** What stands before a line: its carriage control, and the end of the line before it. */
  function Lead(line: string, first: bool): string {
    var c := if line == "" then ' ' else line[0];
    if first then (if c == '0' then [NL] else if c == '1' then [FF] else "")
    else if c == '+' then [CR]
    else if c == '0' then [NL, NL]
    else if c == '1' then [NL, FF]
    else [NL]
  }

  /**
   * A line that is overprinted is led by code 13 alone.  Any other first ends the line before
   * it, if there is one, with code 10; then come code 10 again for 0 and code 12 for 1.
   */
  lemma {:induction false} LeadCodes(c: char, rest: string, first: bool)
    ensures var lead, end := Lead([c] + rest, first), if first then "" else [10 as char];
      && (c as int == 43 ==> lead == if first then "" else [13 as char])
      && (c as int == 48 ==> lead == end + [10 as char])
      && (c as int == 49 ==> lead == end + [12 as char])
      && (c as int !in {43, 48, 49} ==> lead == end)
    ensures Lead("", first) == if first then "" else [10 as char]
  {}

  function Body(line: string): string {
    if line == "" then "" else line[1..]
  }

  /** The whole text; first says that no line came before. */
  function Render(text: string, first: bool): string
    decreases |text|
  {
    if text == "" then Owed(!first)
    else
      var n := LineEnd(text);
      Lead(text[..n], first) + Body(text[..n]) + (if n < |text| then Render(text[n + 1..], false) else "")
  }

  lemma {:induction false} FeedConcat(st: St, a: string, b: string)
    ensures FeedAll(st, a + b) == FeedAll(FeedAll(st, a), b)
    decreases |a|
  {
    if a == "" {
      assert a + b == b;
    } else {
      assert (a + b)[1..] == a[1..] + b;
      FeedConcat(Feed(st, a[0]), a[1..], b);
    }
  }

  lemma {:induction false} FeedBody(out: string, text: string)
    requires forall i :: 0 <= i < |text| ==> text[i] != NL
    ensures FeedAll(St(out, false, false), text) == St(out + text, false, false)
    decreases |text|
  {
    if text == "" {
      assert out + text == out;
    } else {
      FeedBody(out + [text[0]], text[1..]);
      assert out + [text[0]] + text[1..] == out + text;
    }
  }

  lemma {:induction false} FeedLine(out: string, first: bool, line: string)
    requires line != "" && forall i :: 0 <= i < |line| ==> line[i] != NL
    ensures FeedAll(St(out, true, !first), line) == St(out + Lead(line, first) + Body(line), false, false)
  {
    FeedBody(out + Control(line[0], !first), line[1..]);
  }

  lemma {:induction false} FeedWholeLine(out: string, first: bool, line: string)
    requires forall i :: 0 <= i < |line| ==> line[i] != NL
    ensures FeedAll(St(out, true, !first), line + [NL]) == St(out + Lead(line, first) + Body(line), true, true)
  {
    FeedConcat(St(out, true, !first), line, [NL]);
    if line != "" {
      FeedLine(out, first, line);
    } else {
      assert out + Lead(line, first) + Body(line) == out + Owed(!first);
    }
    FeedOne(FeedAll(St(out, true, !first), line), NL);
  }

  lemma {:induction false} FeedOne(st: St, c: char)
    ensures FeedAll(st, [c]) == Feed(st, c)
  {
    assert [c][1..] == [];
  }

  lemma {:induction false} SplitLine(text: string)
    requires LineEnd(text) < |text|
    ensures text == text[..LineEnd(text)] + [NL] + text[LineEnd(text) + 1..]
  {}

  /** The delayed newline gives what the lines, taken one by one, should give. */
  lemma {:induction false} FilterIsRender(out: string, first: bool, text: string)
    ensures Finish(FeedAll(St(out, true, !first), text)) == out + Render(text, first)
    decreases |text|
  {
    var n := LineEnd(text);
    var line := text[..n];
    if text == "" {
    } else if n < |text| {
      var lead, rest := out + Lead(line, first) + Body(line), text[n + 1..];
      SplitLine(text);
      FeedConcat(St(out, true, !first), line + [NL], rest);
      FeedWholeLine(out, first, line);
      FilterIsRender(lead, false, rest);
      Regroup(out, Lead(line, first), Body(line), Render(rest, false));
    } else {
      assert text == line;
      FeedLine(out, first, line);
      Regroup(out, Lead(line, first), Body(line), "");
    }
  }

  lemma {:induction false} Regroup(a: string, b: string, c: string, d: string)
    ensures a + b + c + d == a + (b + c + d)
  {}

  // ---- Several files ----

  function Concat(files: seq<string>): string {
    if files == [] then "" else files[0] + Concat(files[1..])
  }

  /** A file that starts a line after other text, and overprints it. */
  predicate Overprints(before: string, file: string) {
    before != "" && before[|before| - 1] == NL && file != "" && file[0] == '+'
  }

  predicate AnyOverprints(before: string, files: seq<string>)
    decreases |files|
  {
    files != [] && (Overprints(before, files[0]) || AnyOverprints(before + files[0], files[1..]))
  }

  /** Where the filter stands after some text: at the start of a line, owing its newline. */
  lemma {:induction false} StateAfter(before: string)
    ensures var st := FeedAll(Init, before);
      && (st.need ==> st.start)
      && (st.need <==> before != "" && before[|before| - 1] == NL)
    decreases |before|
  {
    if before != "" {
      var n := |before| - 1;
      StateAfter(before[..n]);
      assert before == before[..n] + [before[n]];
      FeedConcat(Init, before[..n], [before[n]]);
      FeedOne(FeedAll(Init, before[..n]), before[n]);
    }
  }

  /** At a file boundary only an overprinting line can tell that the newline was put out early. */
  lemma {:induction false} BoundaryFeed(st: St, file: string)
    requires (st.need ==> st.start) && file != "" && !(st.need && file[0] == '+')
    ensures FeedAll(NextFile(st, false), file) == FeedAll(st, file)
  {
    assert st.out + Owed(false) + "" == st.out;
    assert Feed(NextFile(st, false), file[0]) == Feed(st, file[0]);
  }

  /** The outputs differ at position p. */
  predicate Differ(a: string, b: string, p: nat) {
    p < |a| && p < |b| && a[p] != b[p]
  }

  lemma {:induction false} FeedAppends(st: St, text: string)
    ensures st.out <= FeedAll(st, text).out
    decreases |text|
  {
    if text != "" { FeedAppends(Feed(st, text[0]), text[1..]); }
  }

  lemma {:induction false} RunAppends(st: St, files: seq<string>, forms: bool)
    requires files != []
    ensures st.out <= RunFrom(st, files, forms)
    decreases |files|
  {
    FeedAppends(st, files[0]);
    if |files| > 1 { RunAppends(NextFile(FeedAll(st, files[0]), forms), files[1..], forms); }
  }

  /** An overprinting line at a boundary shows: a newline stands where a return should. */
  lemma {:induction false} BoundaryDiffers(st: St, files: seq<string>, rest: string)
    requires files != [] && files[0] != "" && files[0][0] == '+' && st.need && st.start
    ensures Differ(RunFrom(NextFile(st, false), files, false), Finish(FeedAll(st, files[0] + rest)), |st.out|)
  {
    var f, p := files[0], |st.out|;
    var a := Feed(NextFile(st, false), f[0]);
    var b := Feed(st, f[0]);
    assert a.out[p] == NL && b.out[p] == CR;
    RunAppends(NextFile(st, false), files, false);
    assert (f + rest)[0] == f[0] && (f + rest)[1..] == f[1..] + rest;
    FeedAppends(b, f[1..] + rest);
  }

  lemma {:induction false} FilesFrom(before: string, files: seq<string>)
    requires files != []
    ensures var st := FeedAll(Init, before);
      RunFrom(NextFile(st, false), files, false) == Finish(FeedAll(st, Concat(files))) <==>
          !AnyOverprints(before, files)
    decreases |files|
  {
    var st, f := FeedAll(Init, before), files[0];
    StateAfter(before);
    if Overprints(before, f) {
      BoundaryDiffers(st, files, Concat(files[1..]));
    } else {
      FeedConcat(Init, before, f);
      FeedConcat(st, f, Concat(files[1..]));
      var after := FeedAll(st, f);
      if f == "" {
        assert before + f == before;
        NextTwice(st);
      } else {
        BoundaryFeed(st, f);
      }
      if |files| == 1 {
        assert files[1..] == [] && f + Concat(files[1..]) == f;
      } else {
        FilesFrom(before + f, files[1..]);
      }
    }
  }

  lemma {:induction false} NextTwice(st: St)
    ensures NextFile(NextFile(st, false), false) == NextFile(st, false)
    ensures Finish(NextFile(st, false)) == Finish(st) || !st.start
  {
    assert NextFile(st, false).out + Owed(false) + "" == NextFile(st, false).out;
  }

  /**
   * Filtering files one after the other is filtering them as one text, exactly when no file
   * that starts a line after other text begins with the overprinting control.
   */
  lemma {:induction false} FilesAreOneText(files: seq<string>)
    requires files != []
    ensures RunFrom(Init, files, false) == Render(Concat(files), true) <==> !AnyOverprints("", files)
  {
    assert FeedAll(Init, "") == Init && NextFile(Init, false) == Init;
    FilesFrom("", files);
    FilterIsRender("", true, Concat(files));
    assert "" + Render(Concat(files), true) == Render(Concat(files), true);
  }

  // ---- Forms ----

  /** With -f every file is a text of its own, ended by a newline if it needs one and a form feed. */
  function Pages(files: seq<string>): string
    requires files != []
    decreases |files|
  {
    if |files| == 1 then Render(files[0], true)
    else Render(files[0], true) + PageEnd(files[0]) + Pages(files[1..])
  }

  function PageEnd(file: string): string {
    if file != "" && file[|file| - 1] != NL then [NL, FF] else [FF]
  }

  lemma {:induction false} StateWithin(st: St, text: string)
    requires st.need ==> st.start
    ensures var r := FeedAll(st, text);
      && (r.need ==> r.start)
      && (r.start <==> if text == "" then st.start else text[|text| - 1] == NL)
    decreases |text|
  {
    if text != "" { StateWithin(Feed(st, text[0]), text[1..]); }
  }

  lemma {:induction false} FormsArePages(out: string, files: seq<string>)
    requires files != []
    ensures RunFrom(St(out, true, false), files, true) == out + Pages(files)
    decreases |files|
  {
    var f := files[0];
    var after := FeedAll(St(out, true, false), f);
    FilterIsRender(out, true, f);
    StateWithin(St(out, true, false), f);
    if |files| > 1 {
      var page := out + Render(f, true) + PageEnd(f);
      assert NextFile(after, true) == St(page, true, false);
      FormsArePages(page, files[1..]);
      Regroup(out, Render(f, true), PageEnd(f), Pages(files[1..]));
    }
  }

  // ---- The program ----

  /** What the files still give from a state, the rest of one file and the files after it. */
  function Remaining(st: St, files: seq<string>, f: nat, i: nat, forms: bool): string
    requires f < |files| && i <= |files[f]|
  {
    var after := FeedAll(st, files[f][i..]);
    if f + 1 == |files| then Finish(after) else RunFrom(NextFile(after, forms), files[f + 1..], forms)
  }

  lemma {:induction false} ReadChar(st: St, files: seq<string>, f: nat, i: nat, forms: bool)
    requires f < |files| && i < |files[f]|
    ensures Remaining(st, files, f, i, forms) == Remaining(Feed(st, files[f][i]), files, f, i + 1, forms)
  {
    assert files[f][i..][1..] == files[f][i + 1..];
  }

  lemma {:induction false} ReadEnd(st: St, files: seq<string>, f: nat, forms: bool)
    requires f < |files|
    ensures f + 1 == |files| ==> Remaining(st, files, f, |files[f]|, forms) == Finish(st)
    ensures f + 1 < |files| ==>
              Remaining(st, files, f, |files[f]|, forms) == Remaining(NextFile(st, forms), files, f + 1, 0, forms)
  {
    assert files[f][|files[f]|..] == "";
    if f + 1 < |files| {
      assert files[f + 1][0..] == files[f + 1] && files[f + 1..][1..] == files[f + 2..];
    }
  }

  /** main: nested reading loops over the files, the first of them open. */
  method Filter(files: seq<string>, forms: bool) returns (out: string)
    requires files != []
    ensures out == RunFrom(Init, files, forms)
  {
    out := "";
    var f, i, need := 0, 0, false;
    ghost var whole := RunFrom(Init, files, forms);
    assert files[0..] == files && files[0][0..] == files[0];
    while true
      invariant 0 <= f < |files| && 0 <= i <= |files[f]|
      invariant whole == Remaining(St(out, true, need), files, f, i, forms)
      decreases |files| - f, |files[f]| - i
    {
      ghost var st := St(out, true, need);
      if i == |files[f]| {
        ReadEnd(st, files, f, forms);
        if f + 1 >= |files| {
          if need { out := out + [NL]; }
          return;
        }
        f, i := f + 1, 0;
        if need { out, need := out + [NL], false; }
        if forms { out := out + [FF]; }
        assert NextFile(st, forms) == St(out, true, need);
        continue;
      }
      ReadChar(st, files, f, i, forms);
      var c := files[f][i];
      i := i + 1;
      if c == NL {
        if need { out := out + [NL]; }
        need := true;
        assert Feed(st, c) == St(out, true, need);
        continue;
      }
      out := StartLine(c, need, out);
      need := false;
      ghost var f0, i0 := f, i;
      while true
        invariant 0 <= f < |files| && 0 <= i <= |files[f]| && (f > f0 || (f == f0 && i >= i0))
        invariant !need && whole == Remaining(St(out, false, false), files, f, i, forms)
        decreases |files| - f, |files[f]| - i
      {
        if i == |files[f]| {
          ReadEnd(St(out, false, false), files, f, forms);
          if f + 1 >= |files| { return; }
          f, i := f + 1, 0;
          if forms {
            out := out + [NL, FF];
            break;
          }
        } else {
          ReadChar(St(out, false, false), files, f, i, forms);
          var d := files[f][i];
          i := i + 1;
          if d == NL {
            need := true;
            break;
          }
          out := out + [d];
        }
      }
    }
  }

  /** The first character of a line. */
  method StartLine(c: char, need: bool, out0: string) returns (out: string)
    ensures out == out0 + Control(c, need)
  {
    out := out0;
    if c == '+' {
      if need { out := out + [CR]; }
    } else if c == '0' {
      if need { out := out + [NL]; }
      out := out + [NL];
    } else if c == '1' {
      if need { out := out + [NL]; }
      out := out + [FF];
    } else {
      if need { out := out + [NL]; }
    }
  }
}
