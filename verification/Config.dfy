/** The configuration parser with its static state (loader/cfg.c). */
module Config {
  import opened Bytes
  import opened CStrings
  import opened ConfigTokens
  import opened ConfigTables

  class Parser {
    const buff: string
    var currp: nat                      // endp is the end of buff
    var back: Option<Option<char>>      // the character given back; Some(None) is EOF
    var lastToken: Option<string>
    var lastItem: Option<Setting>       // last_item and last_value
    var options: Table                  // cf_options
    var images: seq<Table>

    ghost predicate Valid()
      reads this
    {
      && currp <= |buff|
      && (back == Some(None) ==> currp == |buff|)
      && back != Some(Some(NUL))
    }

    /** The characters next() will still return. */
    ghost function Rest(): string
      requires Valid()
      reads this
    {
      (if back.Some? && back.value.Some? then [back.value.value] else "") + buff[currp..]
    }

    ghost function Left(): Stream
      requires Valid()
      reads this
    {
      Stream(lastToken, Rest())
    }

    ghost function Tabs(): Tables
      reads this
    {
      Tables(options, images)
    }

    constructor (text: string)
      ensures Valid() && Left() == Stream(None, text) && lastItem == None && Tabs() == NO_SETTINGS
    {
      buff := text;
      currp, back, lastToken, lastItem := 0, None, None, None;
      options, images := CF_OPTIONS, [];
    }

    method Getc() returns (ch: Option<char>)
      requires Valid() && back == None
      modifies `currp
      ensures Valid()
      ensures if old(Rest()) == "" then ch == None && Rest() == ""
              else ch == Some(old(Rest())[0]) && Rest() == old(Rest())[1..]
    {
      if currp == |buff| {
        return None;
      }
      currp := currp + 1;
      return Some(buff[currp - 1]);
    }

    /** The text from a character on that was just read. */
    ghost function Ahead(ch: Option<char>): string
      requires Valid()
      reads this
    {
      (if ch.Some? then [ch.value] else "") + Rest()
    }

    method Next() returns (ch: Option<char>)
      requires Valid()
      modifies `currp, `back
      ensures Valid() && back == None
      ensures if old(Rest()) == "" then ch == None && Rest() == ""
              else ch == Some(old(Rest())[0]) && Rest() == old(Rest())[1..]
      ensures Ahead(ch) == old(Rest())
    {
      ghost var before := Rest();
      assert before != "" ==> [before[0]] + before[1..] == before;
      if back == None {
        ch := Getc();
        return;
      }
      ch := back.value;
      back := None;
    }

    /** again: giving a NUL back loses it. */
    method Again(ch: Option<char>)
      requires Valid() && back == None && (ch == None ==> Rest() == "")
      modifies `back
      ensures Valid()
      ensures Rest() == if ch == None || ch == Some(NUL) then old(Rest()) else [ch.value] + old(Rest())
    {
      back := if ch == Some(NUL) then None else Some(ch);
    }

    /** The white space and comment loop of cfg_get_token: the first character of the token. */
    method FirstChar() returns (ch: Option<char>)
      requires Valid()
      modifies `currp, `back
      ensures Valid() && back == None
      ensures var t := SkipSpace(old(Rest()));
              if t == "" then ch == None && Rest() == "" else ch == Some(t[0]) && Rest() == t[1..]
    {
      hide SkipLine;
      ghost var t := SkipSpace(Rest());
      while true
        invariant Valid() && SkipSpace(Rest()) == t
        decreases |Rest()|
      {
        ch := Next();
        while ch.Some? && Space(ch.value)
          invariant Valid() && back == None && (ch == None ==> Rest() == "" == t)
          invariant ch.Some? ==> SkipSpace([ch.value] + Rest()) == t
          decreases |Rest()| + if ch.Some? then 1 else 0
        {
          assert ([ch.value] + Rest())[1..] == Rest();
          ch := Next();
        }
        if ch == None {
          return;
        }
        assert ([ch.value] + Rest())[1..] == Rest();
        if ch != Some('#') {
          return;
        }
        var more := SkipComment();
        if !more {
          return None;
        }
      }
    }

    /** The rest of a comment line; false at the end of the text. */
    method SkipComment() returns (more: bool)
      requires Valid() && back == None
      modifies `currp, `back
      ensures Valid() && back == None && |Rest()| <= |old(Rest())|
      ensures Rest() == SkipLine(old(Rest())) && (!more ==> Rest() == "")
    {
      ghost var line := Rest();
      var ch := Next();
      while ch != Some('\n')
        invariant Valid() && back == None && |Rest()| <= |line|
        invariant ch.Some? ==> SkipLine([ch.value] + Rest()) == SkipLine(line)
        invariant ch == None ==> Rest() == "" == SkipLine(line)
        decreases |Rest()| + if ch.Some? then 1 else 0
      {
        if ch == None {
          return false;
        }
        assert ([ch.value] + Rest())[1..] == Rest();
        ch := Next();
      }
      assert ([ch.value] + Rest())[1..] == Rest();
      return true;
    }

    /** End the token in the buffer and copy it (strdup). */
    static method Finish(buf: array<char>, here: nat) returns (r: Token)
      requires here < buf.Length
      modifies buf
      ensures r == Tok(Text(old(buf[..here])))
    {
      ghost var acc := buf[..here];
      buf[here] := NUL;
      assert buf[..] == acc + [NUL] + buf[here + 1..];
      TextCut(acc, buf[here + 1..]);
      return Tok(Text(buf[..]));
    }

    /** The quoted branch of cfg_get_token, after the opening quote. */
    method ReadQuoted() returns (r: Token)
      requires Valid() && back == None
      modifies `currp, `back
      ensures Valid()
      ensures r == Quoted(old(Rest()), "").0 && !r.End?
      ensures r.Tok? ==> Rest() == Quoted(old(Rest()), "").1
    {
      hide Unescape, Text;
      var buf := new char[MAX_TOKEN + 1];
      var here := 0;
      ghost var out := Quoted(Rest(), "");
      assert buf[..0] == "";
      while here < MAX_TOKEN
        invariant Valid() && here <= MAX_TOKEN
        invariant Quoted(Rest(), buf[..here]) == out
        decreases |Rest()|
      {
        var ch := Next();
        if ch == None {
          return Bad;
        }
        if ch == Some('"') {
          r := Finish(buf, here);
          return;
        }
        var c := ch.value;
        if c == '\n' {
          return Bad;
        }
        if c == '\\' {
          var esc := ReadEscape();
          if esc.Wrong? {
            return Bad;
          }
          if esc.Nothing? {
            continue;
          }
          c := esc.c;
        }
        buf[here] := c;
        assert buf[..here + 1] == buf[..here] + [c];
        here := here + 1;
      }
      return Bad;
    }

    /** The switch on the character after a backslash. */
    method ReadEscape() returns (r: Escaped)
      requires Valid() && back == None
      modifies `currp, `back
      ensures Valid() && |Rest()| <= |old(Rest())|
      ensures var out := Unescape(old(Rest())); r == out.0 && (r != Wrong ==> Rest() == out.1)
    {
      hide SkipBlanks;
      ghost var s := Rest();
      var ch := Next();
      if ch == Some('"') || ch == Some('\\') {
        return Char(ch.value);
      } else if ch == Some('\n') {
        ch := SkipJoin();
        if ch == Some(NUL) {
          return Nothing;
        }
        ghost var t := SkipBlanks(s[1..]);
        assert t != "" ==> [t[0]] + t[1..] == t;
        Again(ch);
        return Char(' ');
      } else if ch == Some('n') {
        return Char('\n');
      }
      return Wrong;
    }

    /** The blanks after a joined line, and the character that ends them. */
    method SkipJoin() returns (ch: Option<char>)
      requires Valid() && back == None
      modifies `currp, `back
      ensures Valid() && back == None
      ensures var t := SkipBlanks(old(Rest()));
              if t == "" then ch == None && Rest() == "" else ch == Some(t[0]) && Rest() == t[1..]
    {
      ghost var t := SkipBlanks(Rest());
      ch := Next();
      while ch == Some(' ') || ch == Some('\t')
        invariant Valid() && back == None && (ch == None ==> Rest() == "" == t)
        invariant ch.Some? ==> SkipBlanks([ch.value] + Rest()) == t
        decreases |Rest()| + if ch.Some? then 1 else 0
      {
        assert ([ch.value] + Rest())[1..] == Rest();
        ch := Next();
      }
      assert ch.Some? ==> ([ch.value] + Rest())[1..] == Rest();
    }

    /** A character of an unquoted token that does not end it. */
    static method Collect(buf: array<char>, here: nat, escaped: bool, c: char) returns (next: nat, escapes: bool)
      requires here < buf.Length
      modifies buf
      ensures next <= here + 1 && escapes == (!escaped && c == '\\')
      ensures var acc := old(buf[..here]);
              buf[..next] == if escaped then (if c == '\n' then acc else acc + [if c == '\t' then ' ' else c])
                             else if c == '\\' then acc else acc + [c]
    {
      next, escapes := here, false;
      if escaped {
        if c != '\n' {
          buf[here] := if c == '\t' then ' ' else c;
          next := here + 1;
        }
      } else {
        escapes := c == '\\';
        if !escapes {
          buf[here] := c;
          next := here + 1;
        }
      }
    }

    /** The unquoted branch of cfg_get_token, from its first character on. */
    method ReadBare(first: char) returns (r: Token)
      requires Valid() && back == None && !Delimiter(first)
      modifies `currp, `back
      ensures Valid()
      ensures var out := Bare([first] + old(Rest()), "", false);
              r == out.0 && !r.End? && (r.Tok? ==> Rest() == out.1)
    {
      assert !Delimiter(NUL);
      hide Bare, Text, Delimiter;
      var buf := new char[MAX_TOKEN + 1];
      var here: nat, escaped := 0, false;
      var ch := Some(first);
      ghost var out := Bare([first] + Rest(), "", false);
      assert buf[..0] == "";
      while here < MAX_TOKEN
        invariant Valid() && back == None && here <= MAX_TOKEN
        invariant ch == None ==> Rest() == ""
        invariant Bare(Ahead(ch), buf[..here], escaped) == out
        decreases |Rest()| + if ch.Some? then 1 else 0
      {
        ghost var acc := buf[..here];
        if ch == None { BareEnd(acc, escaped); } else { BareStep(ch.value, Rest(), acc, escaped); }
        if escaped {
          if ch == None {
            return Bad;
          }
        } else if ch == None || Delimiter(ch.value) {
          Again(ch);
          r := Finish(buf, here);
          return;
        }
        here, escaped := Collect(buf, here, escaped, ch.value);
        ch := Next();
      }
      BareFull(Ahead(ch), buf[..here], escaped);
      return Bad;
    }

    /** cfg_get_token; Bad stands for the jump out of cfg_error. */
    method GetNext() returns (r: Token)
      requires Valid()
      modifies `currp, `back, `lastToken
      ensures Valid()
      ensures var out := Get(old(Left())); r == out.0 && (r != Bad ==> Left() == out.1)
    {
      hide Quoted, Bare, SkipSpace;
      if lastToken.Some? {
        r := Tok(lastToken.value);
        lastToken := None;
        return;
      }
      ghost var t := SkipSpace(Rest());
      var ch := FirstChar();
      if ch == None {
        return End;
      }
      assert [t[0]] + t[1..] == t;
      assert t[0] == ch.value && t[1..] == Rest();
      if ch == Some('=') {
        return Tok("=");
      }
      if ch == Some('"') {
        r := ReadQuoted();
        return;
      }
      r := ReadBare(ch.value);
    }

    /** cfg_next. */
    method NextSetting() returns (r: Next)
      requires Valid()
      modifies `currp, `back, `lastToken, `lastItem
      ensures Valid()
      ensures old(lastItem).Some? ==> r == Item(old(lastItem).value) && lastItem == None && Left() == old(Left())
      ensures old(lastItem).None? ==>
                var out := NextItem(old(Left()));
                lastItem == None && r == out.0 && (r != Failed ==> Left() == out.1)
    {
      hide GetToken;
      if lastItem.Some? {
        r := Item(lastItem.value);
        lastItem := None;
        return;
      }
      var item := GetNext();
      if item.End? {
        return Done;
      }
      if item.Bad? || item.text == "=" {
        return Failed;
      }
      var this_ := GetNext();
      if this_.End? {
        return Item(Setting(item.text, None));
      }
      if this_.Bad? {
        return Failed;
      }
      if this_.text != "=" {
        lastToken := Some(this_.text);
        return Item(Setting(item.text, None));
      }
      var value := GetNext();
      if !value.Tok? || value.text == "=" {
        return Failed;
      }
      return Item(Setting(item.text, Some(value.text)));
    }

    /** The loop over a table: the first entry with a name, or its length. */
    static method Walk(table: Table, name: string) returns (walk: nat)
      ensures walk == Find(table, name)
    {
      hide Same;
      walk := 0;
      while walk < |table| && !Same(table[walk].name, name)
        invariant walk <= |table| && Find(table, name) == walk + Find(table[walk..], name)
      {
        assert table[walk..][1..] == table[walk + 1..] && table[walk..][0] == table[walk];
        walk := walk + 1;
      }
      assert walk < |table| ==> table[walk..][0] == table[walk];
    }

    /** cfg_set. An unknown item is kept for the next call of cfg_next. */
    method Set(s: Setting) returns (known: bool)
      modifies `options, `images, `lastItem
      ensures (Tabs(), known) == Apply(old(Tabs()), s)
      ensures lastItem == if known then old(lastItem) else Some(s)
    {
      hide Same, Find, CF_IMAGE;
      if Same(s.item, "image") {
        images := images + [CF_IMAGE];
      }
      var table := if images == [] then options else images[|images| - 1];
      var walk := Walk(table, s.item);
      if walk == |table| {
        lastItem := Some(s);
        return false;
      }
      if s.value.Some? == table[walk].kind.Strg? {
        table := table[walk := table[walk].(data := if s.value.Some? then Str(s.value.value) else Value.Set)];
        if images == [] {
          options := table;
        } else {
          images := images[|images| - 1 := table];
        }
      }
      return true;
    }

    /** cfg_parse on the whole text: true for its result 0, false for -1. */
    method ParseAll() returns (ok: bool)
      requires Valid()
      modifies `currp, `back, `lastToken, `lastItem, `options, `images
      ensures Valid() && (ok ==> lastItem == None)
      ensures (Tabs(), ok) == ParseHeld(old(lastItem), old(Left()), old(Tabs()))
    {
      hide NextItem, Apply;
      while true
        invariant Valid()
        invariant ParseHeld(lastItem, Left(), Tabs()) == ParseHeld(old(lastItem), old(Left()), old(Tabs()))
        decreases Size(Left()) + if lastItem.Some? then 1 else 0
      {
        NextAdvances(Left());
        var next := NextSetting();
        if next.Done? {
          return true;
        }
        if next.Failed? {
          return false;
        }
        var known := Set(next.setting);
        if !known {
          return false;
        }
      }
    }

    /** cfg_get_strg_i. */
    static method GetIn(table: Table, item: string) returns (v: Value)
      ensures v == Lookup(table, item)
    {
      var walk := Walk(table, item);
      return if walk < |table| then table[walk].data else Unset;
    }

    /** The name of an image: its label, or the end of its path. */
    static method NameOf(table: Table) returns (name: Value)
      ensures var v := TableView(table, "");
              name == if v.Name().Ok? then Str(v.Name().value) else Unset
    {
      hide Lookup;
      name := GetIn(table, "label");
      if !name.Str? {
        var path := GetIn(table, "image");
        name := if path.Str? then Str(Basename(path.text)) else Unset;
      }
    }

    /** cfg_get_strg, where every image up to the one that answers has a name. */
    method GetString(image: Option<string>, item: string) returns (v: Value)
      requires GetStrg(Tabs(), image, item) != Err(Undefined)
      ensures Ok(v) == GetStrg(Tabs(), image, item)
    {
      hide Lookup, Ask, TableViews, Basename;
      if image.None? {
        v := GetIn(options, item);
        return;
      }
      ghost var global := Lookup(options, item);
      assert images[0..] == images;
      var p := 0;
      while p < |images|
        invariant p <= |images|
        invariant Ask(TableViews(images[p..], item), image.value, global) == GetStrg(Tabs(), image, item)
      {
        AskStep(images, p, item, image.value, global);
        var name := NameOf(images[p]);
        var alias := GetIn(images[p], "alias");
        if name == Str(image.value) || alias == Str(image.value) {
          v := GetIn(images[p], item);
          if v == Unset {
            v := GetIn(options, item);
          }
          return;
        }
        p := p + 1;
      }
      AskNone(images[p..], item, image.value, global);
      return Unset;
    }

    static lemma AskNone(images: seq<Table>, item: string, image: string, global: Value)
      requires images == []
      ensures Ask(TableViews(images, item), image, global) == Ok(Unset)
    {
    }

    static lemma AskStep(images: seq<Table>, p: nat, item: string, image: string, global: Value)
      requires p < |images|
      ensures var v := TableView(images[p], item);
              Ask(TableViews(images[p..], item), image, global)
              == (var name :- v.Name();
                  if v.Answers(image) then Ok(if v.value != Unset then v.value else global)
                  else Ask(TableViews(images[p + 1..], item), image, global))
    {
      hide Lookup;
      var vs := TableViews(images[p..], item);
      assert images[p..][1..] == images[p + 1..];
      assert vs[0] == TableView(images[p], item) && vs[1..] == TableViews(images[p + 1..], item);
    }

    /** cfg_get_default. */
    method GetDefault() returns (v: Value)
      requires Default(Tabs()) != Err(Undefined)
      ensures Ok(v) == Default(Tabs())
    {
      hide Lookup;
      v := GetIn(options, "default");
      if v != Unset || images == [] {
        return;
      }
      assert TableViews(images, "default")[0] == TableView(images[0], "default");
      v := NameOf(images[0]);
    }
  }
}
