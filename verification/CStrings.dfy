/** C strings as sequences of characters. */
module CStrings {

  const NUL := '\0'

  /** The character a C string s has at position i; the string ends at its length. */
  function At(s: string, i: nat): char {
    if i < |s| then s[i] else NUL
  }

  /** The C string at the front of a buffer. */
  function Text(s: seq<char>): (t: string)
    ensures |t| <= |s| && t == s[..|t|] && NUL !in t
  {
    if s == [] || s[0] == NUL then "" else [s[0]] + Text(s[1..])
  }

  lemma {:induction false} TextOf(t: string, after: seq<char>)
    requires NUL !in t
    ensures Text(t + [NUL] + after) == t
    decreases |t|
  {
    var s := t + [NUL] + after;
    if t != "" {
      assert s[0] == t[0] && t[0] in t;
      assert s[1..] == t[1..] + [NUL] + after;
      TextOf(t[1..], after);
    }
  }

  lemma {:induction false} NoNulText(t: string)
    requires NUL !in t
    ensures Text(t) == t
    decreases |t|
  {
    if t != "" {
      assert t[0] in t;
      NoNulText(t[1..]);
    }
  }

  /** A NUL stored after t ends the string no later. */
  lemma {:induction false} TextCut(t: string, after: seq<char>)
    ensures Text(t + [NUL] + after) == Text(t)
    decreases |t|
  {
    if t != "" {
      assert (t + [NUL] + after)[1..] == t[1..] + [NUL] + after;
      TextCut(t[1..], after);
    }
  }
}
