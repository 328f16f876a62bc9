/** Tokens and settings of the configuration language (loader/cfg.c:119-270). */
module ConfigTokens {
  import opened Bytes
  import opened CStrings

  const MAX_TOKEN := 200

  /** A token, the end of the text, or a syntax error. */
  datatype Token = Tok(text: string) | End | Bad

  /** What is left to read, with the one token of push-back. */
  datatype Stream = Stream(pending: Option<string>, rest: string)

  predicate Space(c: char) { c == ' ' || c == '\t' || c == '\n' }

  /** The text after the end of the line, or nothing if there is no further line. */
  function SkipLine(s: string): (t: string)
    ensures |t| <= |s|
  {
    if s == "" then "" else if s[0] == '\n' then s[1..] else SkipLine(s[1..])
  }

  /** The text from its first token on: white space and comments are skipped. */
  function SkipSpace(s: string): (t: string)
    ensures |t| <= |s| && (t != "" ==> !Space(t[0]) && t[0] != '#')
    decreases |s|
  {
    if s == "" then ""
    else if Space(s[0]) then SkipSpace(s[1..])
    else if s[0] == '#' then SkipSpace(SkipLine(s[1..]))
    else s
  }

  function SkipBlanks(s: string): (t: string)
    ensures |t| <= |s|
  {
    if s != "" && (s[0] == ' ' || s[0] == '\t') then SkipBlanks(s[1..]) else s
  }

  datatype Escaped = Char(c: char) | Nothing | Wrong

  /** What follows a backslash in quotes, and the text after it. A backslash joins
      lines to one blank; a NUL right after the joined blanks is dropped with it. */
  function Unescape(s: string): (r: (Escaped, string))
    ensures |r.1| <= |s|
  {
    if s == "" then (Wrong, "")
    else if s[0] == '"' || s[0] == '\\' then (Char(s[0]), s[1..])
    else if s[0] == 'n' then (Char('\n'), s[1..])
    else if s[0] == '\n' then
      var t := SkipBlanks(s[1..]);
      if t != "" && t[0] == NUL then (Nothing, t[1..]) else (Char(' '), t)
    else (Wrong, "")
  }

  /** A quoted token, acc being decoded already. */
  function Quoted(s: string, acc: string): (r: (Token, string))
    ensures |r.1| <= |s| && (r.0.Tok? ==> |r.0.text| < MAX_TOKEN && NUL !in r.0.text)
    decreases |s|
  {
    if MAX_TOKEN <= |acc| || s == "" then (Bad, "")
    else if s[0] == '"' then (Tok(Text(acc)), s[1..])
    else if s[0] == '\n' then (Bad, "")
    else if s[0] != '\\' then Quoted(s[1..], acc + [s[0]])
    else
      match Unescape(s[1..])
      case (Char(c), t) => Quoted(t, acc + [c])
      case (Nothing, t) => Quoted(t, acc)
      case (Wrong, _) => (Bad, "")
  }

  predicate Delimiter(c: char) { Space(c) || c == '#' || c == '=' }

  /** A token without quotes. An escaped character stands for itself, an escaped
      tab for a blank, an escaped newline for nothing. */
  function Bare(s: string, acc: string, escaped: bool): (r: (Token, string))
    ensures |r.1| <= |s| && (r.0.Tok? ==> |r.0.text| < MAX_TOKEN && NUL !in r.0.text)
    decreases |s|
  {
    if MAX_TOKEN <= |acc| then (Bad, "")
    else if s == "" then (if escaped then Bad else Tok(Text(acc)), "")
    else if escaped then
      Bare(s[1..], if s[0] == '\n' then acc else acc + [if s[0] == '\t' then ' ' else s[0]], false)
    else if Delimiter(s[0]) then (Tok(Text(acc)), s)
    else if s[0] == '\\' then Bare(s[1..], acc, true)
    else Bare(s[1..], acc + [s[0]], false)
  }

  lemma BareAdvances(s: string)
    requires s != "" && !Delimiter(s[0])
    ensures |Bare(s, "", false).1| < |s|
  {
  }

  /** One more character of such a token. */
  lemma BareStep(c: char, rest: string, acc: string, escaped: bool)
    requires |acc| < MAX_TOKEN
    ensures Bare([c] + rest, acc, escaped) ==
            if escaped then Bare(rest, if c == '\n' then acc else acc + [if c == '\t' then ' ' else c], false)
            else if Delimiter(c) then (Tok(Text(acc)), [c] + rest)
            else if c == '\\' then Bare(rest, acc, true)
            else Bare(rest, acc + [c], false)
  {
    assert ([c] + rest)[1..] == rest;
  }

  lemma BareEnd(acc: string, escaped: bool)
    ensures Bare("", acc, escaped)
            == (if MAX_TOKEN <= |acc| || escaped then Bad else Tok(Text(acc)), "")
  {
  }

  lemma BareFull(s: string, acc: string, escaped: bool)
    requires MAX_TOKEN <= |acc|
    ensures Bare(s, acc, escaped) == (Bad, "")
  {
  }

  /** cfg_get_token without push-back. */
  function GetToken(s: string): (r: (Token, string))
    ensures |r.1| <= |s| && (r.0.Tok? ==> |r.1| < |s| && |r.0.text| < MAX_TOKEN && NUL !in r.0.text)
  {
    var t := SkipSpace(s);
    if t == "" then (End, "")
    else if t[0] == '=' then (Tok("="), t[1..])
    else if t[0] == '"' then Quoted(t[1..], "")
    else BareAdvances(t); Bare(t, "", false)
  }

  function Get(st: Stream): (Token, Stream) {
    if st.pending.Some? then (Tok(st.pending.value), Stream(None, st.rest))
    else var (t, rest) := GetToken(st.rest); (t, Stream(None, rest))
  }

  /** A flag, or an item with a value. */
  datatype Setting = Setting(item: string, value: Option<string>)

  datatype Next = Item(setting: Setting) | Done | Failed

  /** cfg_next without a returned item. */
  function NextItem(st: Stream): (Next, Stream) {
    var (t, st1) := Get(st);
    if t.End? then (Done, st1)
    else if t.Bad? || t.text == "=" then (Failed, st1)
    else
      var (u, st2) := Get(st1);
      if u.End? then (Item(Setting(t.text, None)), st2)
      else if u.Bad? then (Failed, st2)
      else if u.text != "=" then (Item(Setting(t.text, None)), Stream(Some(u.text), st2.rest))
      else
        var (v, st3) := Get(st2);
        if !v.Tok? || v.text == "=" then (Failed, st3)
        else (Item(Setting(t.text, Some(v.text))), st3)
  }

  function Size(st: Stream): nat { |st.rest| + if st.pending.Some? then 1 else 0 }

  lemma NextAdvances(st: Stream)
    ensures NextItem(st).0.Item? ==> Size(NextItem(st).1) < Size(st)
  {
    hide GetToken;
  }

  /** The settings of a text up to its end or its first syntax error, and whether
      there is no such error. */
  function ReadAll(st: Stream): (seq<Setting>, bool)
    decreases Size(st)
  {
    NextAdvances(st);
    match NextItem(st)
    case (Done, _) => ([], true)
    case (Failed, _) => ([], false)
    case (Item(s), st') => var (more, ok) := ReadAll(st'); ([s] + more, ok)
  }

  /** All settings of a text, or None on a syntax error. */
  function Items(st: Stream): Option<seq<Setting>> {
    var (ss, ok) := ReadAll(st);
    if ok then Some(ss) else None
  }

  /** Writing a token in quotes. */
  function Escape(t: string): string {
    if t == "" then ""
    else (if t[0] == '"' then "\\\"" else if t[0] == '\\' then "\\\\" else if t[0] == '\n' then "\\n" else [t[0]])
         + Escape(t[1..])
  }

  function Quote(t: string): string { "\"" + Escape(t) + "\"" }

  function WriteValue(v: Option<string>): string {
    if v.Some? then "=" + Quote(v.value) else ""
  }

  /** One setting a line. */
  function Write(ss: seq<Setting>): string {
    if ss == [] then ""
    else Quote(ss[0].item) + Tail(ss[0].value, Write(ss[1..]))
  }

  function Tail(v: Option<string>, more: string): string {
    WriteValue(v) + "\n" + more
  }

  /** Tokens that survive: no NUL, shorter than 200, and not the separator. */
  predicate Writable(t: string) {
    NUL !in t && |t| < MAX_TOKEN && t != "="
  }

  predicate WritableSetting(s: Setting) {
    Writable(s.item) && (s.value.Some? ==> Writable(s.value.value))
  }

  /** A quoted token is read back if its length allows, and refused otherwise. */
  lemma {:induction false} QuotedReads(t: string, acc: string, rest: string)
    ensures Quoted(Escape(t) + "\"" + rest, acc)
            == if |acc| + |t| < MAX_TOKEN then (Tok(Text(acc + t)), rest) else (Bad, "")
    decreases |t|
  {
    hide Text;
    var s := Escape(t) + "\"" + rest;
    if t == "" {
      assert s[0] == '"' && s[1..] == rest && acc + t == acc;
    } else {
      var more := Escape(t[1..]) + "\"" + rest;
      assert acc + [t[0]] + t[1..] == acc + t;
      if t[0] == '"' || t[0] == '\\' || t[0] == '\n' {
        assert s[0] == '\\' && s[1..][1..] == more;
      } else {
        assert s[0] == t[0] && s[1..] == more;
      }
      QuotedReads(t[1..], acc + [t[0]], rest);
    }
  }

  lemma QuoteToken(t: string, rest: string)
    requires NUL !in t && |t| < MAX_TOKEN
    ensures GetToken(Quote(t) + rest) == (Tok(t), rest)
    ensures GetToken("\n" + (Quote(t) + rest)) == (Tok(t), rest)
  {
    var s := Quote(t) + rest;
    assert s[0] == '"' && s[1..] == Escape(t) + "\"" + rest;
    assert ("\n" + s)[1..] == s;
    QuotedReads(t, "", rest);
    assert "" + t == t;
    NoNulText(t);
  }

  lemma EqualsToken(rest: string)
    ensures GetToken("=" + rest) == (Tok("="), rest)
    ensures GetToken("") == GetToken("\n") == (End, "")
  {
    assert ("=" + rest)[0] == '=' && ("=" + rest)[1..] == rest;
    assert "\n"[1..] == "";
  }

  /** A stream that stands for the written settings ss: at their start, after the
      newline before them, or with the first item already read and given back. */
  ghost predicate StandsFor(st: Stream, ss: seq<Setting>) {
    || (st.pending.None? && (st.rest == Write(ss) || st.rest == "\n" + Write(ss)))
    || (ss != [] && st == Stream(Some(ss[0].item), Tail(ss[0].value, Write(ss[1..]))))
  }

  lemma FirstToken(st: Stream, ss: seq<Setting>)
    requires ss != [] && Writable(ss[0].item) && StandsFor(st, ss)
    ensures Get(st) == (Tok(ss[0].item), Stream(None, Tail(ss[0].value, Write(ss[1..]))))
  {
    hide GetToken, Quote, Tail;
    QuoteToken(ss[0].item, Tail(ss[0].value, Write(ss[1..])));
  }

  lemma TailTokens(v: Option<string>, ss: seq<Setting>)
    requires v.Some? ==> Writable(v.value)
    requires ss != [] ==> Writable(ss[0].item)
    ensures v.Some? ==>
              && GetToken(Tail(v, Write(ss))) == (Tok("="), Quote(v.value) + "\n" + Write(ss))
              && GetToken(Quote(v.value) + "\n" + Write(ss)) == (Tok(v.value), "\n" + Write(ss))
    ensures v.None? ==>
              GetToken(Tail(v, Write(ss)))
              == if ss == [] then (End, "") else (Tok(ss[0].item), Tail(ss[0].value, Write(ss[1..])))
  {
    hide GetToken, Quote, Writable, Escape;
    if v.Some? {
      ValueTail(v.value, Write(ss));
    } else {
      FlagTail(ss);
    }
  }

  lemma ValueTail(value: string, more: string)
    requires Writable(value)
    ensures GetToken(Tail(Some(value), more)) == (Tok("="), Quote(value) + "\n" + more)
    ensures GetToken(Quote(value) + "\n" + more) == (Tok(value), "\n" + more)
  {
    hide GetToken, Quote;
    EqualsToken(Quote(value) + "\n" + more);
    assert Tail(Some(value), more) == "=" + (Quote(value) + "\n" + more);
    assert Quote(value) + "\n" + more == Quote(value) + ("\n" + more);
    QuoteToken(value, "\n" + more);
  }

  lemma FlagTail(ss: seq<Setting>)
    requires ss != [] ==> Writable(ss[0].item)
    ensures GetToken(Tail(None, Write(ss)))
            == if ss == [] then (End, "") else (Tok(ss[0].item), Tail(ss[0].value, Write(ss[1..])))
  {
    hide GetToken, Quote, WriteValue;
    assert WriteValue(None) == "" by { NoValue(); }
    assert Tail(None, Write(ss)) == "\n" + Write(ss);
    if ss == [] {
      EqualsToken("");
      assert "\n" + Write(ss) == "\n";
    } else {
      QuoteToken(ss[0].item, Tail(ss[0].value, Write(ss[1..])));
    }
  }

  lemma NoValue()
    ensures WriteValue(None) == ""
  {
  }

  lemma NextReads(st: Stream, ss: seq<Setting>)
    requires ss != [] && StandsFor(st, ss) && forall s :: s in ss ==> WritableSetting(s)
    ensures NextItem(st).0 == Item(ss[0]) && StandsFor(NextItem(st).1, ss[1..])
  {
    hide GetToken, Quote, Tail;
    assert WritableSetting(ss[0]);
    assert |ss| > 1 ==> ss[1..][0] == ss[1] && WritableSetting(ss[1]);
    FirstToken(st, ss);
    TailTokens(ss[0].value, ss[1..]);
  }

  lemma {:induction false} WrittenReadBack(st: Stream, ss: seq<Setting>)
    requires StandsFor(st, ss) && forall s :: s in ss ==> WritableSetting(s)
    ensures ReadAll(st) == (ss, true)
    decreases |ss|
  {
    hide GetToken, Quote, Tail, StandsFor, NextItem, WritableSetting;
    if ss == [] {
      NothingLeft(st);
    } else {
      NextReads(st, ss);
      NextAdvances(st);
      WrittenReadBack(NextItem(st).1, ss[1..]);
      assert [ss[0]] + ss[1..] == ss;
    }
  }

  lemma NothingLeft(st: Stream)
    requires StandsFor(st, [])
    ensures ReadAll(st) == ([], true)
  {
    EqualsToken("");
  }

  /** Whatever a text says, the settings read from it are writable. */
  lemma {:induction false} ReadIsWritable(st: Stream)
    requires st.pending.Some? ==> Writable(st.pending.value)
    ensures forall s :: s in ReadAll(st).0 ==> WritableSetting(s)
    decreases Size(st)
  {
    hide GetToken;
    NextAdvances(st);
    var (n, st') := NextItem(st);
    if n.Item? {
      assert WritableSetting(n.setting);
      ReadIsWritable(st');
    }
  }

  /** Main result: a written list of flags and item=value pairs is read back as
      itself exactly when all its tokens are NUL-free, shorter than 200
      characters and different from "=". */
  lemma ItemsRoundTrip(ss: seq<Setting>)
    ensures Items(Stream(None, Write(ss))) == Some(ss) <==> forall s :: s in ss ==> WritableSetting(s)
  {
    hide WritableSetting, ReadAll, Write;
    var st := Stream(None, Write(ss));
    if forall s :: s in ss ==> WritableSetting(s) {
      WrittenReadBack(st, ss);
    }
    ReadIsWritable(st);
  }

  /** Characters that stand for themselves outside quotes. */
  predicate Ordinary(c: char) { !Delimiter(c) && c != '\\' && c != '"' }

  /** Writing a token without quotes: special characters get a backslash. */
  function EscapeBare(t: string): string {
    if t == "" then ""
    else (if Ordinary(t[0]) then "" else "\\") + [t[0]] + EscapeBare(t[1..])
  }

  lemma {:induction false} OrdinaryText(t: string)
    requires forall i :: 0 <= i < |t| ==> Ordinary(t[i])
    ensures EscapeBare(t) == t
    decreases |t|
  {
    hide Ordinary;
    if t != "" {
      OrdinaryText(t[1..]);
    }
  }

  /** Tokens that can be written so: not empty, and without newlines and tabs. */
  predicate BareWritable(t: string) {
    t != "" && NUL !in t && '\n' !in t && '\t' !in t && |t| < MAX_TOKEN
  }

  lemma {:induction false} BareReads(t: string, acc: string, rest: string)
    requires '\n' !in t && '\t' !in t
    requires rest != "" ==> Delimiter(rest[0])
    ensures Bare(EscapeBare(t) + rest, acc, false)
            == if |acc| + |t| < MAX_TOKEN then (Tok(Text(acc + t)), rest) else (Bad, "")
    decreases |t|
  {
    hide Text;
    var s := EscapeBare(t) + rest;
    if t == "" {
      assert s == rest && acc + t == acc;
    } else {
      assert t[0] in t;
      var more := EscapeBare(t[1..]) + rest;
      assert acc + [t[0]] + t[1..] == acc + t;
      if !Ordinary(t[0]) {
        assert s[0] == '\\' && s[1..][0] == t[0] && s[1..][1..] == more;
      } else {
        assert s[0] == t[0] && s[1..] == more;
      }
      BareReads(t[1..], acc + [t[0]], rest);
    }
  }

  /** A token written with backslashes is read back, up to the delimiter after it. */
  lemma BareToken(t: string, rest: string)
    requires BareWritable(t) && (rest != "" ==> Delimiter(rest[0]))
    ensures GetToken(EscapeBare(t) + rest) == (Tok(t), rest)
  {
    hide Bare, Quoted, EscapeBare, Delimiter;
    BareReads(t, "", rest);
    assert "" + t == t;
    NoNulText(t);
    BareFirst(t, rest);
  }

  /** A comment line in front of a token does not matter. */
  lemma CommentSkipped(comment: string, s: string)
    requires '\n' !in comment
    ensures GetToken("#" + comment + "\n" + s) == GetToken(s)
  {
    hide Bare, Quoted;
    var c := "#" + comment + "\n" + s;
    assert c[0] == '#' && c[1..] == comment + "\n" + s;
    LineSkipped(comment, s);
  }

  lemma BareFirst(t: string, rest: string)
    requires t != ""
    ensures var s := EscapeBare(t) + rest;
            s != "" && s[0] != '"' && s[0] != '=' && !Delimiter(s[0]) && SkipSpace(s) == s
  {
  }

  lemma {:induction false} LineSkipped(comment: string, s: string)
    requires '\n' !in comment
    ensures SkipLine(comment + "\n" + s) == s
    decreases |comment|
  {
    var c := comment + "\n" + s;
    if comment == "" {
      assert c[0] == '\n' && c[1..] == s;
    } else {
      assert comment[0] in comment && c[1..] == comment[1..] + "\n" + s;
      LineSkipped(comment[1..], s);
    }
  }

  /** Blanks, tabs and newlines in front of a token do not matter. */
  lemma {:induction false} SpacesSkipped(ws: string, s: string)
    requires forall i :: 0 <= i < |ws| ==> ws[i] == ' ' || ws[i] == '\t' || ws[i] == '\n'
    ensures GetToken(ws + s) == GetToken(s)
    decreases |ws|
  {
    hide Bare, Quoted;
    if ws == "" {
      assert ws + s == s;
    } else {
      assert (ws + s)[0] == ws[0] && (ws + s)[1..] == ws[1..] + s;
      SpacesSkipped(ws[1..], s);
    }
  }

  /** A token without quotes ends before a blank, a tab, a newline, a hash or an equals
      sign, and has at most 199 characters. */
  lemma BareUpTo(t: string, d: char, rest: string)
    requires t != "" && forall c :: c in t ==> c !in " \t\n#=\\\"\0"
    requires d in " \t\n#="
    ensures GetToken(t + [d] + rest) == if |t| < 200 then (Tok(t), [d] + rest) else (Bad, "")
  {
    hide Bare, Quoted, Text, BareWritable;
    forall i | 0 <= i < |t| ensures Ordinary(t[i]) {
      assert t[i] in t;
    }
    OrdinaryText(t);
    var s := t + [d] + rest;
    assert s == EscapeBare(t) + ([d] + rest) && ([d] + rest)[0] == d;
    BareReads(t, "", [d] + rest);
    assert "" + t == t;
    NoNulText(t);
    BareFirst(t, [d] + rest);
    hide Ordinary, Delimiter, Space;
  }

  /** In quotes a backslash at the end of a line joins it with the next one, leaving one
      blank for the blanks and tabs there. */
  lemma LineJoined(blanks: string, u: string, acc: string)
    requires |acc| < 200 && (forall i :: 0 <= i < |blanks| ==> blanks[i] == ' ' || blanks[i] == '\t')
    requires u != "" && u[0] != ' ' && u[0] != '\t' && u[0] != '\0'
    ensures Quoted("\\\n" + blanks + u, acc) == Quoted(u, acc + " ")
  {
    hide Text, SkipBlanks;
    var s := "\\\n" + blanks + u;
    assert s[0] == '\\' && s[1..][0] == '\n' && s[1..][1..] == blanks + u;
    BlanksSkipped(blanks, u);
    assert Unescape(s[1..]) == (Char(' '), u);
    hide Unescape;
    QuotedStep(s, acc);
  }

  /** A backslash in quotes. */
  lemma QuotedStep(s: string, acc: string)
    requires |acc| < 200 && s != "" && s[0] == '\\'
    ensures var e := Unescape(s[1..]); e.0.Char? ==> Quoted(s, acc) == Quoted(e.1, acc + [e.0.c])
  {
    hide Text, Unescape;
  }

  lemma {:induction false} BlanksSkipped(blanks: string, u: string)
    requires forall i :: 0 <= i < |blanks| ==> blanks[i] == ' ' || blanks[i] == '\t'
    requires u != "" && u[0] != ' ' && u[0] != '\t'
    ensures SkipBlanks(blanks + u) == u
    decreases |blanks|
  {
    if blanks == "" {
      assert blanks + u == u;
    } else {
      assert (blanks + u)[0] == blanks[0] && (blanks + u)[1..] == blanks[1..] + u;
      BlanksSkipped(blanks[1..], u);
    }
  }
}
