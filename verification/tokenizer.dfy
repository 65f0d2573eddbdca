/** Splitting an input line into fields the way `strtok(line, "\t")` does
    (climate.c:171-185): a run of tabs is one separator, leading and
    trailing tabs are skipped, so a field is never empty; only the first
    nine fields are kept. */
module Tokenizer {
  import opened Wrappers

  /** The number of fields `state_tokens` keeps. */
  const MaxTokens := 9

  /** A field as `strtok` returns it: non-empty and free of the delimiter. */
  predicate IsField(f: string) {
    f != [] && '\t' !in f
  }

  function Tabs(n: nat): (s: string)
    ensures |s| == n && forall i :: 0 <= i < n ==> s[i] == '\t'
  {
    seq(n, _ => '\t')
  }

  /** The number of tabs that start the text. */
  function LeadingTabs(s: string): (n: nat)
    ensures n <= |s| && forall i :: 0 <= i < n ==> s[i] == '\t'
    ensures n == |s| || s[n] != '\t'
  {
    if s != [] && s[0] == '\t' then 1 + LeadingTabs(s[1..]) else 0
  }

  /** The length of the run of non-tab characters that starts the text. */
  function FieldLength(s: string): (n: nat)
    ensures n <= |s| && forall i :: 0 <= i < n ==> s[i] != '\t'
    ensures n == |s| || s[n] == '\t'
  {
    if s != [] && s[0] != '\t' then 1 + FieldLength(s[1..]) else 0
  }

  /** One call of `strtok` on the text still to be scanned: the next field
      and what follows it, or None once only tabs remain. The field is
      non-empty and tab-free and what follows it is empty or starts at the
      tab that ended it. */
  function Strtok(s: string): (r: Option<(string, string)>)
    ensures r.Some? ==>
              && IsField(r.value.0)
              && (r.value.1 == [] || r.value.1[0] == '\t')
              && |r.value.0| + |r.value.1| <= |s|
  {
    var k := LeadingTabs(s);
    if k == |s| then None
    else
      var n := FieldLength(s[k..]);
      Some((s[k..k + n], s[k + n..]))
  }

  /** `strtok` finds nothing exactly when only tabs remain, and otherwise
      the text is the tabs it skipped, the field and the rest. */
  lemma StrtokSplits(s: string)
    ensures Strtok(s).None? <==> forall i :: 0 <= i < |s| ==> s[i] == '\t'
    ensures Strtok(s).None? ==> s == Tabs(|s|)
    ensures Strtok(s).Some? ==>
              var tok, rest := Strtok(s).value.0, Strtok(s).value.1;
              s == Tabs(|s| - |tok| - |rest|) + tok + rest
  {
    var k := LeadingTabs(s);
    if k < |s| {
      var n := FieldLength(s[k..]);
      assert s == Tabs(k) + s[k..k + n] + s[k + n..];
    } else {
      assert s == Tabs(|s|);
    }
  }

  /** Every field of the line, in order. */
  function Fields(s: string): (fs: seq<string>)
    ensures forall i :: 0 <= i < |fs| ==> IsField(fs[i])
    decreases |s|
  {
    match Strtok(s)
    case None => []
    case Some((tok, rest)) => [tok] + Fields(rest)
  }

  /** The fields `state_tokens` keeps: the first nine, or all if fewer. */
  function Tokens(line: string): seq<string> {
    var fs := Fields(line);
    if |fs| <= MaxTokens then fs else fs[..MaxTokens]
  }

  /** The loop of `state_tokens`: call `strtok` until it finds no more
      fields or nine have been stored. */
  method StateTokens(line: string) returns (tokens: seq<string>)
    ensures |tokens| <= MaxTokens
    ensures tokens == Tokens(line)
  {
    tokens := [];
    var rest := line;
    var token := Strtok(rest);
    assert Fields(line) == tokens + Fields(rest);
    while token.Some? && |tokens| < MaxTokens
      invariant |tokens| <= MaxTokens
      invariant token == Strtok(rest)
      invariant Fields(line) == tokens + Fields(rest)
      decreases |rest|
    {
      FieldsStep(tokens, rest);
      tokens := tokens + [token.value.0];
      rest := token.value.1;
      token := Strtok(rest);
    }
    LoopExit(line, tokens, rest);
  }

  /** When the loop stops, either no field is left or nine are kept; in
      both cases the kept ones are the first nine fields, or all of them. */
  lemma LoopExit(line: string, tokens: seq<string>, rest: string)
    requires |tokens| <= MaxTokens && Fields(line) == tokens + Fields(rest)
    requires Strtok(rest).None? || |tokens| == MaxTokens
    ensures tokens == Tokens(line)
  {
    if Strtok(rest).None? {
      assert Fields(rest) == [];
      assert Fields(line) == tokens;
    } else {
      assert Fields(line)[..MaxTokens] == tokens;
    }
  }

  /** One step of the loop: the next token moves from the fields still to
      be read to the fields kept, and the text left gets shorter. */
  lemma FieldsStep(kept: seq<string>, rest: string)
    requires Strtok(rest).Some?
    ensures |Strtok(rest).value.1| < |rest|
    ensures kept + Fields(rest) == (kept + [Strtok(rest).value.0]) + Fields(Strtok(rest).value.1)
  {
    var tok, next := Strtok(rest).value.0, Strtok(rest).value.1;
    FieldsUnfold(rest);
    var later := Fields(next);
    assert kept + ([tok] + later) == (kept + [tok]) + later;
  }

  /** The fields of a text are the token `strtok` finds, then the fields
      of what follows it. */
  lemma FieldsUnfold(s: string)
    requires Strtok(s).Some?
    ensures |Strtok(s).value.1| < |s|
    ensures Fields(s) == [Strtok(s).value.0] + Fields(Strtok(s).value.1)
  {
  }

  /** A line laid out from its fields: gaps[0] tabs, fs[0], gaps[1] tabs,
      fs[1], …, and gaps[|fs|] tabs at the end. */
  function Layout(fs: seq<string>, gaps: seq<nat>): string
    requires |gaps| == |fs| + 1
    decreases |fs|
  {
    if fs == [] then Tabs(gaps[0]) else Tabs(gaps[0]) + fs[0] + Layout(fs[1..], gaps[1..])
  }

  /** Fields and separators that make a well-formed line: every field is a
      `strtok` field and fields are separated by at least one tab. */
  predicate ValidLayout(fs: seq<string>, gaps: seq<nat>) {
    && |gaps| == |fs| + 1
    && (forall i :: 0 <= i < |fs| ==> IsField(fs[i]))
    && (forall i :: 0 < i < |fs| ==> gaps[i] >= 1)
  }

  /** The tab counts around the fields of a line. */
  function Gaps(s: string): (gaps: seq<nat>)
    ensures |gaps| == |Fields(s)| + 1
    decreases |s|
  {
    match Strtok(s)
    case None => [|s|]
    case Some((tok, rest)) => [|s| - |tok| - |rest|] + Gaps(rest)
  }

  lemma StrtokOfLayout(a: nat, tok: string, rest: string)
    requires IsField(tok)
    requires rest == [] || rest[0] == '\t'
    ensures Strtok(Tabs(a) + tok + rest) == Some((tok, rest))
  {
    var s := Tabs(a) + tok + rest;
    assert s == Tabs(a) + (tok + rest);
    assert s[a..] == tok + rest;
    assert s[a] == tok[0];
    var k := LeadingTabs(s);
    assert k == a;
    assert forall i :: 0 <= i < |tok| ==> (tok + rest)[i] == tok[i] && tok[i] in tok;
    assert rest != [] ==> (tok + rest)[|tok|] == '\t';
    var n := FieldLength(tok + rest);
    assert n == |tok|;
    assert s[k..k + n] == tok;
    assert s[k + n..] == rest;
  }

  /** Laying fields out with any positive runs of tabs between them (and
      any tabs before the first or after the last) and splitting the line
      again gives back exactly those fields: runs of tabs collapse and no
      empty field appears. */
  lemma {:induction false} FieldsOfLayout(fs: seq<string>, gaps: seq<nat>)
    requires ValidLayout(fs, gaps)
    ensures Fields(Layout(fs, gaps)) == fs
    decreases |fs|
  {
    if fs == [] {
      StrtokSplits(Tabs(gaps[0]));
    } else {
      var rest := Layout(fs[1..], gaps[1..]);
      LayoutTail(fs, gaps);
      var line := Layout(fs, gaps);
      assert line == Tabs(gaps[0]) + fs[0] + rest;
      StrtokOfLayout(gaps[0], fs[0], rest);
      assert Fields(line) == [fs[0]] + Fields(rest);
      FieldsOfLayout(fs[1..], gaps[1..]);
      assert fs == [fs[0]] + fs[1..];
    }
  }

  /** What follows the first field of a layout is itself a layout, and it
      is empty or starts with a tab. */
  lemma LayoutTail(fs: seq<string>, gaps: seq<nat>)
    requires ValidLayout(fs, gaps) && |fs| >= 1
    ensures ValidLayout(fs[1..], gaps[1..])
    ensures var rest := Layout(fs[1..], gaps[1..]);
            rest == [] || rest[0] == '\t'
  {
    var rest := Layout(fs[1..], gaps[1..]);
    if |fs| > 1 {
      assert gaps[1..][0] >= 1;
      assert rest == Tabs(gaps[1]) + (fs[1..][0] + Layout(fs[2..], gaps[2..]));
    } else {
      assert rest == Tabs(gaps[1]);
    }
  }

  /** Conversely, every line is the layout of its own fields with the
      tab runs that separate them. */
  lemma {:induction false} LayoutOfFields(s: string)
    ensures ValidLayout(Fields(s), Gaps(s))
    ensures Layout(Fields(s), Gaps(s)) == s
    decreases |s|
  {
    StrtokSplits(s);
    match Strtok(s)
    case None =>
    case Some((tok, rest)) =>
      LayoutOfFields(rest);
      var gap := |s| - |tok| - |rest|;
      assert Fields(s) == [tok] + Fields(rest);
      assert Gaps(s) == [gap] + Gaps(rest);
      if |Fields(rest)| > 0 {
        assert rest != [] && rest[0] == '\t';
      }
      ConsLayout(gap, tok, Fields(rest), Gaps(rest));
  }

  /** One more field in front of a layout. */
  lemma ConsLayout(gap: nat, tok: string, fs: seq<string>, gaps: seq<nat>)
    requires IsField(tok) && ValidLayout(fs, gaps)
    requires fs == [] || gaps[0] >= 1
    ensures ValidLayout([tok] + fs, [gap] + gaps)
    ensures Layout([tok] + fs, [gap] + gaps) == Tabs(gap) + tok + Layout(fs, gaps)
  {
    var fs', gaps' := [tok] + fs, [gap] + gaps;
    assert fs'[1..] == fs && gaps'[1..] == gaps;
    assert forall i :: 0 < i < |fs'| ==> fs'[i] == fs[i - 1] && gaps'[i] == gaps[i - 1];
  }

  /** The text ends inside a field rather than in a tab run. */
  predicate EndsInField(s: string) {
    s != [] && s[|s| - 1] != '\t'
  }

  /** A line as `fgets` stores it keeps its newline, and `strtok` treats
      the newline as an ordinary character. After a final tab run (or on
      a line of tabs) the newline is a field of its own; otherwise it ends
      the last field. */
  lemma FieldsNewline(s: string)
    ensures !EndsInField(s) ==> Fields(s + "\n") == Fields(s) + ["\n"]
    ensures EndsInField(s) ==>
              var fs := Fields(s);
              |fs| >= 1 && Fields(s + "\n") == fs[..|fs| - 1] + [fs[|fs| - 1] + "\n"]
  {
    LayoutOfFields(s);
    var fs, gaps := Fields(s), Gaps(s);
    LayoutEnd(fs, gaps);
    if EndsInField(s) {
      NewlineEndsField(fs, gaps);
    } else {
      NewlineIsField(fs, gaps);
    }
  }

  /** The case of a line that ends inside its last field. */
  lemma FieldsNewlineInLast(s: string)
    requires EndsInField(s)
    ensures var fs := Fields(s);
            |fs| >= 1 && Fields(s + "\n") == fs[..|fs| - 1] + [fs[|fs| - 1] + "\n"]
    ensures |Fields(s + "\n")| == |Fields(s)|
  {
    FieldsNewline(s);
  }

  /** The fields before the one the newline touches stay as they were. */
  lemma FieldsNewlinePrefix(s: string, k: nat)
    requires k < |Fields(s)| || (k == |Fields(s)| && !EndsInField(s))
    ensures |Fields(s + "\n")| >= |Fields(s)|
    ensures Fields(s + "\n")[..k] == Fields(s)[..k]
  {
    FieldsNewline(s);
    var fs := Fields(s);
    if EndsInField(s) {
      PrefixBeforeLast(fs, fs[|fs| - 1] + "\n", k);
    } else {
      PrefixBeforeSnoc(fs, "\n", k);
    }
  }

  lemma PrefixBeforeLast(fs: seq<string>, last: string, k: nat)
    requires k < |fs|
    ensures (fs[..|fs| - 1] + [last])[..k] == fs[..k]
  {
  }

  lemma PrefixBeforeSnoc(fs: seq<string>, last: string, k: nat)
    requires k <= |fs|
    ensures (fs + [last])[..k] == fs[..k]
  {
  }

  lemma NewlineEndsField(fs: seq<string>, gaps: seq<nat>)
    requires ValidLayout(fs, gaps) && fs != [] && gaps[|fs|] == 0
    ensures Fields(Layout(fs, gaps) + "\n") == fs[..|fs| - 1] + [fs[|fs| - 1] + "\n"]
  {
    var last := fs[|fs| - 1];
    var fs' := fs[..|fs| - 1] + [last + "\n"];
    LayoutExtendLast(fs, gaps, "\n");
    assert '\t' !in last + "\n" by {
      assert forall i :: 0 <= i < |last| ==> (last + "\n")[i] == last[i] && last[i] in last;
    }
    assert forall i :: 0 <= i < |fs'| ==> fs'[i] == if i < |fs| - 1 then fs[i] else last + "\n";
    FieldsOfLayout(fs', gaps);
  }

  lemma NewlineIsField(fs: seq<string>, gaps: seq<nat>)
    requires ValidLayout(fs, gaps) && (fs == [] || gaps[|fs|] >= 1)
    ensures Fields(Layout(fs, gaps) + "\n") == fs + ["\n"]
  {
    LayoutSnocField(fs, gaps, "\n");
    var fs', gaps' := fs + ["\n"], gaps + [0];
    assert IsField("\n") by {
      assert "\n"[0] != '\t';
    }
    forall i | 0 <= i < |fs'|
      ensures IsField(fs'[i])
    {
      if i < |fs| {
        assert fs'[i] == fs[i];
      } else {
        assert fs'[i] == "\n";
      }
    }
    forall i | 0 < i < |fs'|
      ensures gaps'[i] >= 1
    {
      assert gaps'[i] == gaps[i];
      if i == |fs| {
        assert gaps[|fs|] >= 1;
      }
    }
    FieldsOfLayout(fs', gaps');
  }

  /** A layout ends inside a field exactly when it has fields and no tabs
      after the last one. */
  lemma {:induction false} LayoutEnd(fs: seq<string>, gaps: seq<nat>)
    requires ValidLayout(fs, gaps)
    ensures EndsInField(Layout(fs, gaps)) <==> fs != [] && gaps[|fs|] == 0
    decreases |fs|
  {
    if fs != [] {
      LayoutTail(fs, gaps);
      var rest := Layout(fs[1..], gaps[1..]);
      var line := Tabs(gaps[0]) + fs[0] + rest;
      assert Layout(fs, gaps) == line;
      LayoutEnd(fs[1..], gaps[1..]);
      if rest == [] {
        assert fs[1..] == [];
        assert gaps[1] == 0;
        assert line[|line| - 1] == fs[0][|fs[0]| - 1];
        assert fs[0][|fs[0]| - 1] in fs[0];
      } else {
        assert line[|line| - 1] == rest[|rest| - 1];
        if fs[1..] == [] {
          assert rest == Tabs(gaps[1]);
        }
      }
    } else {
      assert Layout(fs, gaps) == Tabs(gaps[0]);
    }
  }

  /** Text after a layout is one more field, with no tabs before it. */
  lemma {:induction false} LayoutSnocField(fs: seq<string>, gaps: seq<nat>, f: string)
    requires |gaps| == |fs| + 1
    ensures Layout(fs, gaps) + f == Layout(fs + [f], gaps + [0])
    decreases |fs|
  {
    var fs', gaps' := fs + [f], gaps + [0];
    assert fs'[0] == if fs == [] then f else fs[0];
    assert gaps'[0] == gaps[0];
    if fs == [] {
      assert fs'[1..] == [] && gaps'[1..] == [0];
      assert Layout([], [0]) == [];
    } else {
      LayoutSnocField(fs[1..], gaps[1..], f);
      assert fs'[1..] == fs[1..] + [f] && gaps'[1..] == gaps[1..] + [0];
    }
  }

  /** Text right after the last field of a layout extends that field. */
  lemma {:induction false} LayoutExtendLast(fs: seq<string>, gaps: seq<nat>, c: string)
    requires |gaps| == |fs| + 1 && fs != [] && gaps[|fs|] == 0
    ensures Layout(fs, gaps) + c == Layout(fs[..|fs| - 1] + [fs[|fs| - 1] + c], gaps)
    decreases |fs|
  {
    var fs' := fs[..|fs| - 1] + [fs[|fs| - 1] + c];
    if |fs| == 1 {
      assert fs' == [fs[0] + c] && fs'[1..] == [] && fs[1..] == [];
      assert Layout([], gaps[1..]) == [];
    } else {
      LayoutExtendLast(fs[1..], gaps[1..], c);
      assert fs'[0] == fs[0];
      assert fs'[1..] == fs[1..][..|fs| - 2] + [fs[1..][|fs| - 2] + c];
    }
  }
}
