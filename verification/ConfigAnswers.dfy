/** What questions about a configuration are answered, read off the list of settings by
    position (loader/cfg.c:272-371). */
module ConfigAnswers {
  import opened Bytes
  import opened ConfigTokens
  import opened ConfigTables

  /** The same but for the case of letters. */
  predicate Alike(a: string, b: string) {
    |a| == |b| && forall i :: 0 <= i < |a| ==> LetterAlike(a[i], b[i])
  }

  predicate LetterAlike(c: char, d: char) {
    || c == d
    || ('A' <= c <= 'Z' && d as int == c as int + 32)
    || ('A' <= d <= 'Z' && c as int == d as int + 32)
  }

  lemma AlikeIsSame(a: string, b: string)
    ensures Same(a, b) <==> Alike(a, b)
  {
    if Same(a, b) {
      forall i | 0 <= i < |a| ensures LetterAlike(a[i], b[i]) {
        assert Lower(a)[i] == Lower(b)[i];
      }
    }
    if Alike(a, b) {
      forall i | 0 <= i < |a| ensures Lower(a)[i] == Lower(b)[i] {
        assert LetterAlike(a[i], b[i]);
      }
    }
  }

  /** The global items that are known, in the order of the source, and which of them
      are flags. */
  lemma KnownOptions()
    ensures Names(CF_OPTIONS) ==
            ["device", "partition", "default", "timeout", "message", "root", "ramdisk", "read-only", "read-write",
             "append", "initrd", "initrd-size", "pause-after", "pause-message", "init-code", "init-message"]
    ensures forall k :: 0 <= k < 16 ==> (CF_OPTIONS[k].kind == Flag <==> k in {7, 8, 12}) && CF_OPTIONS[k].data == Unset
  {
    hide CF_IMAGE;
  }

  /** Those of an image section. */
  lemma KnownImageItems()
    ensures Names(CF_IMAGE) ==
            ["image", "label", "alias", "device", "partition", "root", "ramdisk", "read-only", "read-write",
             "append", "literal", "initrd", "old-kernel", "pause-after", "pause-message"]
    ensures forall k :: 0 <= k < 15 ==> (CF_IMAGE[k].kind == Flag <==> k in {7, 8, 12, 13}) && CF_IMAGE[k].data == Unset
  {
    hide CF_OPTIONS;
  }

  function Names(t: Table): seq<string> {
    seq(|t|, k requires 0 <= k < |t| => t[k].name)
  }

  /** Setting i gives the item a value. */
  ghost predicate Gives(ss: seq<Setting>, i: nat, item: string)
    requires i < |ss|
  {
    Alike(ss[i].item, item) && ss[i].value.Some?
  }

  /** The last value that settings a to b give the item; None if there is none. */
  ghost predicate LastValue(ss: seq<Setting>, a: nat, b: nat, item: string, v: Option<string>)
    requires a <= b <= |ss|
  {
    if v.None? then forall i :: a <= i < b ==> !Gives(ss, i, item)
    else exists i :: a <= i < b && Gives(ss, i, item) && ss[i].value == v
                     && forall j :: i < j < b ==> !Gives(ss, j, item)
  }

  /** One of settings a to b is the item without a value. */
  ghost predicate FlagSet(ss: seq<Setting>, a: nat, b: nat, item: string)
    requires a <= b <= |ss|
  {
    exists i :: a <= i < b && Alike(ss[i].item, item) && ss[i].value.None?
  }

  lemma SliceSnoc(ss: seq<Setting>, a: nat, b: nat)
    requires a < b <= |ss|
    ensures ss[a..b] != [] && ss[a..b][..b - a - 1] == ss[a..b - 1] && ss[a..b][b - a - 1] == ss[b - 1]
  {
  }

  lemma {:induction false} ValueIs(ss: seq<Setting>, a: nat, b: nat, item: string, v: Option<string>)
    requires a <= b <= |ss| && LastValue(ss, a, b, item, v)
    ensures LastSet(Strg, ss[a..b], item) == if v.Some? then Str(v.value) else Unset
    decreases b
  {
    hide Same, Alike;
    if a < b {
      SliceSnoc(ss, a, b);
      AlikeIsSame(ss[b - 1].item, item);
      if !Gives(ss, b - 1, item) {
        assert LastValue(ss, a, b - 1, item, v);
        ValueIs(ss, a, b - 1, item, v);
      }
    }
  }

  lemma {:induction false} FlagIs(ss: seq<Setting>, a: nat, b: nat, item: string)
    requires a <= b <= |ss|
    ensures LastSet(Flag, ss[a..b], item) == if FlagSet(ss, a, b, item) then Set else Unset
    decreases b
  {
    hide Same, Alike;
    if a < b {
      SliceSnoc(ss, a, b);
      AlikeIsSame(ss[b - 1].item, item);
      FlagIs(ss, a, b - 1, item);
    }
  }

  /** What settings a to b of a section say about an item that table t knows. */
  ghost predicate Says(t: Table, ss: seq<Setting>, a: nat, b: nat, item: string, answer: Value)
    requires a <= b <= |ss|
  {
    var k := Find(t, item);
    if k == |t| then answer == Unset
    else if t[k].kind == Strg then
      exists v: Option<string> :: LastValue(ss, a, b, item, v) && answer == if v.Some? then Str(v.value) else Unset
    else answer == if FlagSet(ss, a, b, item) then Set else Unset
  }

  lemma SaysMeaning(t: Table, ss: seq<Setting>, a: nat, b: nat, item: string, answer: Value)
    requires a <= b <= |ss| && Says(t, ss, a, b, item, answer)
    ensures Meaning(t, ss[a..b], item) == answer
  {
    hide Find, LastSet, LastValue, FlagSet;
    var k := Find(t, item);
    if k < |t| {
      if t[k].kind == Strg {
        var v: Option<string> :| LastValue(ss, a, b, item, v) && answer == if v.Some? then Str(v.value) else Unset;
        ValueIs(ss, a, b, item, v);
      } else {
        FlagIs(ss, a, b, item);
      }
    }
  }

  /** Settings 0 to g are those before the first image item. */
  ghost predicate IsGlobal(ss: seq<Setting>, g: nat) {
    && g <= |ss| && (forall i :: 0 <= i < g ==> !Alike(ss[i].item, "image"))
    && (g < |ss| ==> Alike(ss[g].item, "image"))
  }

  lemma {:induction false} GlobalsAre(ss: seq<Setting>, g: nat)
    requires IsGlobal(ss, g)
    ensures Globals(ss) == ss[..g]
    decreases g
  {
    hide Same, Alike;
    if ss != [] {
      AlikeIsSame(ss[0].item, "image");
      if 0 < g {
        var rest := ss[1..];
        assert forall i :: 0 <= i < g - 1 ==> rest[i] == ss[i + 1];
        GlobalsAre(rest, g - 1);
        assert ss[..g] == [ss[0]] + rest[..g - 1];
      }
    }
  }

  /** Main result on global options: without an image, the answer is the last value that
      a setting before the first image gives a string item; a flag is set if one of them
      names it without a value; anything else is unset. */
  lemma GlobalAnswer(ss: seq<Setting>, g: nat, item: string, answer: Value)
    requires After(NO_SETTINGS, ss).1 && IsGlobal(ss, g) && Says(CF_OPTIONS, ss, 0, g, item, answer)
    ensures GetStrg(After(NO_SETTINGS, ss).0, None, item) == Ok(answer)
  {
    hide After, NO_SETTINGS, CF_OPTIONS, CF_IMAGE, GetStrg, Says, Meaning, Globals, Sections, Alike;
    GlobalsAre(ss, g);
    SaysMeaning(CF_OPTIONS, ss, 0, g, item, answer);
    assert ss[0..g] == ss[..g];
    ConfigMeaning(ss, None, item);
  }

  /** Settings a to b are one image item and what follows it up to the next one. */
  ghost predicate IsSection(ss: seq<Setting>, a: nat, b: nat) {
    && a < b <= |ss| && Alike(ss[a].item, "image")
    && (forall i :: a < i < b ==> !Alike(ss[i].item, "image"))
    && (b < |ss| ==> Alike(ss[b].item, "image"))
  }

  /** The image items among the first n settings. */
  ghost function Images(ss: seq<Setting>, n: nat): nat
    requires n <= |ss|
  {
    if n == 0 then 0 else Images(ss, n - 1) + if Alike(ss[n - 1].item, "image") then 1 else 0
  }

  lemma {:induction false} ImagesPrefix(ss: seq<Setting>, m: nat, n: nat)
    requires n <= m <= |ss|
    ensures Images(ss[..m], n) == Images(ss, n)
    decreases n
  {
    hide Alike;
    if n > 0 { ImagesPrefix(ss, m, n - 1); }
  }

  lemma {:induction false} ImagesGrow(ss: seq<Setting>, m: nat, n: nat)
    requires m <= n <= |ss|
    ensures Images(ss, m) <= Images(ss, n)
    ensures Images(ss, m) == Images(ss, n) <==> forall i :: m <= i < n ==> !Alike(ss[i].item, "image")
    decreases n
  {
    hide Alike;
    if m < n { ImagesGrow(ss, m, n - 1); }
  }

  lemma {:induction false} SectionCount(ss: seq<Setting>)
    ensures |Sections(ss)| == Images(ss, |ss|)
    decreases |ss|
  {
    hide Same, Alike;
    if ss != [] {
      var n := |ss| - 1;
      SectionCount(ss[..n]);
      ImagesPrefix(ss, n, n);
      AlikeIsSame(ss[n].item, "image");
    }
  }

  /** A section by position is the one with the number of image items before it. */
  lemma {:induction false} SectionIs(ss: seq<Setting>, a: nat, b: nat)
    requires IsSection(ss, a, b)
    ensures Images(ss, a) < |Sections(ss)| && Sections(ss)[Images(ss, a)] == ss[a..b]
    decreases |ss|
  {
    hide Same, Alike, Images, Sections;
    var n := |ss| - 1;
    var before := ss[..n];
    AlikeIsSame(ss[n].item, "image");
    SectionCount(before);
    ImagesPrefix(ss, n, n);
    ImagesPrefix(ss, n, if a <= n then a else n);
    SectionsOn(ss);
    if a == n {
      assert ss[a..b] == [ss[n]];
    } else {
      var c := if b <= n then b else n;
      assert IsSection(before, a, c);
      SectionIs(before, a, c);
      PrefixSlice(ss, n, a, c);
      if b == n + 1 {
        LastSection(ss, a, n);
        assert ss[a..b] == ss[a..n] + [ss[n]];
      } else if !Same(ss[n].item, "image") {
        NotLastSection(ss, a, b, n);
      }
    }
  }

  lemma PrefixSlice(ss: seq<Setting>, n: nat, a: nat, c: nat)
    requires a <= c <= n <= |ss|
    ensures ss[..n][a..c] == ss[a..c]
  {
  }

  lemma SectionsOn(ss: seq<Setting>)
    requires ss != []
    ensures var n := |ss| - 1;
            var before := Sections(ss[..n]);
            Sections(ss) == if Same(ss[n].item, "image") then before + [[ss[n]]]
                            else if before == [] then []
                            else before[|before| - 1 := before[|before| - 1] + [ss[n]]]
  {
    hide Same;
  }

  lemma LastSection(ss: seq<Setting>, a: nat, n: nat)
    requires a < n <= |ss| && Alike(ss[a].item, "image") && forall i :: a < i < n ==> !Alike(ss[i].item, "image")
    ensures Images(ss, n) == Images(ss, a) + 1
  {
    hide Alike;
    ImagesGrow(ss, a + 1, n);
  }

  lemma NotLastSection(ss: seq<Setting>, a: nat, b: nat, n: nat)
    requires a < b < n <= |ss| && Alike(ss[a].item, "image") && Alike(ss[b].item, "image")
    ensures Images(ss, a) + 2 <= Images(ss, n)
  {
    hide Alike;
    ImagesGrow(ss, a + 1, b);
    ImagesGrow(ss, b + 1, n);
  }

  /** Every section has a position, the earlier ones before it. */
  lemma {:induction false} SectionAt(ss: seq<Setting>, k: nat) returns (a: nat, b: nat)
    requires k < |Sections(ss)|
    ensures IsSection(ss, a, b) && Images(ss, a) == k && Sections(ss)[k] == ss[a..b]
    decreases |ss|
  {
    hide Same, Alike, Images, Sections;
    SectionCount(ss);
    ImageAt(ss, k, |ss|);
    a := ImageIndex(ss, k, |ss|);
    b := NextImage(ss, a + 1);
    SectionIs(ss, a, b);
  }

  lemma {:induction false} ImageAt(ss: seq<Setting>, k: nat, n: nat)
    requires n <= |ss| && k < Images(ss, n)
    ensures exists i :: 0 <= i < n && Alike(ss[i].item, "image") && Images(ss, i) == k
    decreases n
  {
    hide Alike;
    if k < Images(ss, n - 1) {
      ImageAt(ss, k, n - 1);
    } else {
      assert Alike(ss[n - 1].item, "image") && Images(ss, n - 1) == k;
    }
  }

  lemma ImageIndex(ss: seq<Setting>, k: nat, n: nat) returns (i: nat)
    requires n <= |ss| && exists i :: 0 <= i < n && Alike(ss[i].item, "image") && Images(ss, i) == k
    ensures i < n && Alike(ss[i].item, "image") && Images(ss, i) == k
  {
    i :| 0 <= i < n && Alike(ss[i].item, "image") && Images(ss, i) == k;
  }

  lemma {:induction false} NextImage(ss: seq<Setting>, i: nat) returns (b: nat)
    requires i <= |ss|
    ensures i <= b <= |ss| && (forall j :: i <= j < b ==> !Alike(ss[j].item, "image"))
    ensures b < |ss| ==> Alike(ss[b].item, "image")
    decreases |ss| - i
  {
    hide Alike;
    b := i;
    if i < |ss| && !Alike(ss[i].item, "image") {
      b := NextImage(ss, i + 1);
    }
  }

  /** name is what follows the last slash of a path. */
  ghost predicate LastPart(path: string, name: string) {
    '/' !in name && (path == name || exists dir: string :: path == dir + "/" + name)
  }

  lemma LastPartIs(path: string, name: string)
    ensures Basename(path) == name <==> LastPart(path, name)
  {
    var b := Basename(path);
    EndIsPart(path, b);
    if LastPart(path, name) {
      PartIsEnd(path, name);
      OneEnd(path, b, name);
    }
  }

  /** name is a slash-free end of the path, all of it or after a slash. */
  predicate IsEnd(path: string, name: string) {
    && |name| <= |path| && path[|path| - |name|..] == name && '/' !in name
    && (|name| < |path| ==> path[|path| - |name| - 1] == '/')
  }

  lemma EndIsPart(path: string, name: string)
    requires IsEnd(path, name)
    ensures LastPart(path, name)
  {
    var n := |path| - |name|;
    if 0 < n {
      assert path == path[..n - 1] + "/" + name;
    } else {
      assert path[0..] == path;
    }
  }

  lemma PartIsEnd(path: string, name: string)
    requires LastPart(path, name)
    ensures IsEnd(path, name)
  {
    if path == name {
      assert path[0..] == path;
    } else {
      var dir: string :| path == dir + "/" + name;
      assert path[|dir|] == '/' && path[|dir| + 1..] == name;
    }
  }

  /** An end without a slash is no longer than one behind a slash. */
  lemma NotLonger(path: string, long: string, short: string)
    requires IsEnd(path, long) && IsEnd(path, short)
    ensures |long| <= |short|
  {
    var n := |path| - |long|;
    forall i | n <= i < |path| ensures path[i] != '/' {
      assert path[i] == long[i - n] && long[i - n] in long;
    }
  }

  lemma OneEnd(path: string, b: string, name: string)
    requires IsEnd(path, b) && IsEnd(path, name)
    ensures b == name
  {
    NotLonger(path, b, name);
    NotLonger(path, name, b);
  }

  /** The section names its image, by a label or by a path. */
  ghost predicate HasName(ss: seq<Setting>, a: nat, b: nat)
    requires a <= b <= |ss|
  {
    !LastValue(ss, a, b, "label", None) || !LastValue(ss, a, b, "image", None)
  }

  /** It answers to its label, without a label to the end of its path, and to its alias. */
  ghost predicate AnswersTo(ss: seq<Setting>, a: nat, b: nat, image: string)
    requires a <= b <= |ss|
  {
    || LastValue(ss, a, b, "label", Some(image))
    || (LastValue(ss, a, b, "label", None)
        && exists path: string :: LastValue(ss, a, b, "image", Some(path)) && LastPart(path, image))
    || LastValue(ss, a, b, "alias", Some(image))
  }

  /** There always is a last value or none. */
  lemma {:induction false} SomeValue(ss: seq<Setting>, a: nat, b: nat, item: string) returns (v: Option<string>)
    requires a <= b <= |ss|
    ensures LastValue(ss, a, b, item, v)
    decreases b
  {
    hide Alike;
    if a == b {
      v := None;
    } else if Gives(ss, b - 1, item) {
      v := ss[b - 1].value;
    } else {
      v := SomeValue(ss, a, b - 1, item);
    }
  }

  /** What the settings of a section say about a name the image table has as a string. */
  lemma StringIs(ss: seq<Setting>, a: nat, b: nat, item: string, v: Option<string>)
    requires a <= b <= |ss| && item in {"label", "image", "alias"}
    ensures LastValue(ss, a, b, item, v)
            <==> Meaning(CF_IMAGE, ss[a..b], item) == if v.Some? then Str(v.value) else Unset
  {
    hide Lower, LastValue, LastSet;
    assert Same(CF_IMAGE[0].name, "image") && Same(CF_IMAGE[1].name, "label") && Same(CF_IMAGE[2].name, "alias");
    assert Find(CF_IMAGE, item) <= 2;
    assert Meaning(CF_IMAGE, ss[a..b], item) == LastSet(Strg, ss[a..b], item);
    var w := SomeValue(ss, a, b, item);
    ValueIs(ss, a, b, item, w);
    if LastValue(ss, a, b, item, v) {
      ValueIs(ss, a, b, item, v);
    }
  }

  lemma ViewIs(ss: seq<Setting>, a: nat, b: nat, item: string, image: string)
    requires IsSection(ss, a, b) && Images(ss, a) < |Sections(ss)| && Sections(ss)[Images(ss, a)] == ss[a..b]
    ensures var view := SectionViews(Sections(ss), item)[Images(ss, a)];
            && (view.Name().Ok? <==> HasName(ss, a, b))
            && (view.Name().Ok? ==> (view.Answers(image) <==> AnswersTo(ss, a, b, image)))
            && view.value == Meaning(CF_IMAGE, ss[a..b], item)
  {
    hide CF_IMAGE, Meaning, Sections, Images, LastValue, LastPart, Basename, Alike;
    var view := SectionViews(Sections(ss), item)[Images(ss, a)];
    var tag := SomeValue(ss, a, b, "label");
    var path := SomeValue(ss, a, b, "image");
    StringIs(ss, a, b, "label", tag);
    StringIs(ss, a, b, "image", path);
    StringIs(ss, a, b, "label", None);
    StringIs(ss, a, b, "image", None);
    StringIs(ss, a, b, "label", Some(image));
    StringIs(ss, a, b, "alias", Some(image));
    if path.Some? {
      LastPartIs(path.value, image);
    }
    forall p: string | LastValue(ss, a, b, "image", Some(p)) ensures path == Some(p) {
      StringIs(ss, a, b, "image", Some(p));
    }
  }

  /** Main result on images: the first section that answers to the name decides, if all
      up to it have a name. It gives the last value that one of its settings gives a
      string item, a flag that one of them sets, and else what is said globally. */
  lemma SectionAnswer(ss: seq<Setting>, a: nat, b: nat, image: string, item: string, answer: Value)
    requires After(NO_SETTINGS, ss).1 && IsSection(ss, a, b)
    requires HasName(ss, a, b) && AnswersTo(ss, a, b, image)
    requires forall c: nat, d: nat :: IsSection(ss, c, d) && d <= a ==> HasName(ss, c, d) && !AnswersTo(ss, c, d, image)
    requires Says(CF_IMAGE, ss, a, b, item, answer)
    ensures GetStrg(After(NO_SETTINGS, ss).0, Some(image), item)
            == if answer != Unset then Ok(answer) else GetStrg(After(NO_SETTINGS, ss).0, None, item)
  {
    hide After, NO_SETTINGS, CF_OPTIONS, CF_IMAGE, GetStrg, Says, Meaning, Globals, Sections, Images, SectionViews,
      HasName, AnswersTo, Ask;
    ConfigMeaning(ss, Some(image), item);
    ConfigMeaning(ss, None, item);
    SaysMeaning(CF_IMAGE, ss, a, b, item, answer);
    SectionIs(ss, a, b);
    var views, k := SectionViews(Sections(ss), item), Images(ss, a);
    ViewIs(ss, a, b, item, image);
    forall j | 0 <= j < k ensures views[j].Name().Ok? && !views[j].Answers(image) {
      var c, d := SectionAt(ss, j);
      Earlier(ss, c, d, a, b);
      ViewIs(ss, c, d, item, image);
    }
    AskIsFirst(views, image, Meaning(CF_OPTIONS, Globals(ss), item), k);
  }

  /** A section with fewer images before it ends before the other one starts. */
  lemma Earlier(ss: seq<Setting>, c: nat, d: nat, a: nat, b: nat)
    requires IsSection(ss, c, d) && IsSection(ss, a, b) && Images(ss, c) < Images(ss, a)
    ensures d <= a
  {
    hide Alike, Images;
    if a <= c {
      ImagesGrow(ss, a, c);
    }
  }

  /** And without such a section there is no answer. */
  lemma NoSectionAnswers(ss: seq<Setting>, image: string, item: string)
    requires After(NO_SETTINGS, ss).1
    requires forall c: nat, d: nat :: IsSection(ss, c, d) ==> HasName(ss, c, d) && !AnswersTo(ss, c, d, image)
    ensures GetStrg(After(NO_SETTINGS, ss).0, Some(image), item) == Ok(Unset)
  {
    hide After, NO_SETTINGS, CF_OPTIONS, CF_IMAGE, GetStrg, Meaning, Globals, Sections, Images, SectionViews,
      HasName, AnswersTo, Ask;
    ConfigMeaning(ss, Some(image), item);
    var views := SectionViews(Sections(ss), item);
    forall j | 0 <= j < |views| ensures views[j].Name().Ok? && !views[j].Answers(image) {
      var c, d := SectionAt(ss, j);
      ViewIs(ss, c, d, item, image);
    }
    AskIsFirst(views, image, Meaning(CF_OPTIONS, Globals(ss), item), |views|);
  }

  /** All this holds of the tables that parsing the written settings leaves. */
  lemma WrittenParses(ss: seq<Setting>)
    requires forall s :: s in ss ==> WritableSetting(s)
    requires forall i :: 0 <= i < |ss| ==> Known(ss, i)
    ensures Parse(Stream(None, Write(ss)), NO_SETTINGS) == After(NO_SETTINGS, ss) && After(NO_SETTINGS, ss).1
  {
    hide WritableSetting, ReadAll, Write, Known, Parse, After, NO_SETTINGS;
    ItemsRoundTrip(ss);
    ParseIsAfter(Stream(None, Write(ss)), NO_SETTINGS);
    AcceptedIsKnown(ss);
  }

  /** Main result, from the text to the answer. */
  lemma WrittenAnswers(ss: seq<Setting>, g: nat, item: string, answer: Value)
    requires forall s :: s in ss ==> WritableSetting(s)
    requires forall i :: 0 <= i < |ss| ==> Known(ss, i)
    requires IsGlobal(ss, g) && Says(CF_OPTIONS, ss, 0, g, item, answer)
    ensures var (ts, ok) := Parse(Stream(None, Write(ss)), NO_SETTINGS); ok && GetStrg(ts, None, item) == Ok(answer)
  {
    hide WritableSetting, Known, Parse, After, NO_SETTINGS, GetStrg, Says, CF_OPTIONS, Write, IsGlobal;
    WrittenParses(ss);
    GlobalAnswer(ss, g, item, answer);
  }

  lemma WrittenImageAnswers(ss: seq<Setting>, a: nat, b: nat, image: string, item: string, answer: Value)
    requires forall s :: s in ss ==> WritableSetting(s)
    requires forall i :: 0 <= i < |ss| ==> Known(ss, i)
    requires IsSection(ss, a, b) && HasName(ss, a, b) && AnswersTo(ss, a, b, image)
    requires forall c: nat, d: nat :: IsSection(ss, c, d) && d <= a ==> HasName(ss, c, d) && !AnswersTo(ss, c, d, image)
    requires Says(CF_IMAGE, ss, a, b, item, answer)
    ensures var (ts, ok) := Parse(Stream(None, Write(ss)), NO_SETTINGS);
            ok && GetStrg(ts, Some(image), item) == if answer != Unset then Ok(answer) else GetStrg(ts, None, item)
  {
    hide WritableSetting, Known, Parse, After, NO_SETTINGS, GetStrg, Says, CF_IMAGE, Write, HasName, AnswersTo;
    WrittenParses(ss);
    SectionAnswer(ss, a, b, image, item, answer);
  }
}
