/** Ruby string primitives the cookbook relies on: the `\s` class, `String#strip`,
    `Array#join` and the way a `:`-separated path is read back into its entries. */
module Text {

  /** Ruby's `\s`: space, tab, line feed, vertical tab, form feed, carriage return. */
  predicate IsSpace(c: char) {
    c == ' ' || c == '\t' || c == '\n' || c == '\U{B}' || c == '\U{C}' || c == '\r'
  }

  /** The characters `String#strip` removes from both ends: `\s` and NUL. */
  predicate IsStripped(c: char) {
    IsSpace(c) || c == '\0'
  }

  predicate AllStripped(s: string) {
    forall k :: 0 <= k < |s| ==> IsStripped(s[k])
  }

  /** A string that `strip` leaves alone: empty, or not starting or ending in whitespace. */
  predicate Trimmed(s: string) {
    s == [] || (!IsStripped(s[0]) && !IsStripped(s[|s| - 1]))
  }

  /** Length of the leading run of strippable characters. */
  function LeadingStripped(s: string): (n: nat)
    ensures n <= |s|
    ensures AllStripped(s[..n])
    ensures n < |s| ==> !IsStripped(s[n])
  {
    if s == [] || !IsStripped(s[0]) then 0
    else
      var n := 1 + LeadingStripped(s[1..]);
      assert s[..n] == [s[0]] + s[1..][..n - 1];
      n
  }

  /** Length of the trailing run of strippable characters. */
  function TrailingStripped(s: string): (n: nat)
    ensures n <= |s|
    ensures AllStripped(s[|s| - n..])
    ensures n < |s| ==> !IsStripped(s[|s| - 1 - n])
  {
    if s == [] || !IsStripped(s[|s| - 1]) then 0
    else
      var init := s[..|s| - 1];
      var n := 1 + TrailingStripped(init);
      assert s[|s| - n..] == init[|init| - (n - 1)..] + [s[|s| - 1]];
      n
  }

  /** Ruby's `String#strip`: the longest run between a strippable prefix and a strippable suffix. */
  function Strip(s: string): (r: string)
    ensures Trimmed(r)
    ensures exists i :: 0 <= i <= |s| - |r| && s[i..i + |r|] == r && AllStripped(s[..i]) && AllStripped(s[i + |r|..])
  {
    var i := LeadingStripped(s);
    var t := s[i..];
    var j := |t| - TrailingStripped(t);
    assert t[..j] == s[i..i + j];
    assert s[i + j..] == t[j..];
    assert j > 0 ==> t[..j][0] == t[0];
    t[..j]
  }

  lemma {:induction false} LeadingStrippedAppend(pre: string, t: string)
    requires AllStripped(pre)
    ensures LeadingStripped(pre + t) == |pre| + LeadingStripped(t)
  {
    if pre != [] {
      assert (pre + t)[0] == pre[0] && IsStripped(pre[0]);
      assert (pre + t)[1..] == pre[1..] + t;
      assert AllStripped(pre[1..]) by {
        forall k | 0 <= k < |pre| - 1 ensures IsStripped(pre[1..][k]) { assert pre[1..][k] == pre[k + 1]; }
      }
      LeadingStrippedAppend(pre[1..], t);
      assert LeadingStripped(pre + t) == 1 + LeadingStripped((pre + t)[1..]);
    } else {
      assert pre + t == t;
    }
  }

  lemma {:induction false} TrailingStrippedAppend(t: string, post: string)
    requires AllStripped(post)
    ensures TrailingStripped(t + post) == |post| + TrailingStripped(t)
  {
    if post != [] {
      var init := post[..|post| - 1];
      assert (t + post)[|t + post| - 1] == post[|post| - 1] && IsStripped(post[|post| - 1]);
      assert (t + post)[..|t + post| - 1] == t + init;
      assert AllStripped(init) by {
        forall k | 0 <= k < |init| ensures IsStripped(init[k]) { assert init[k] == post[k]; }
      }
      TrailingStrippedAppend(t, init);
      assert TrailingStripped(t + post) == 1 + TrailingStripped((t + post)[..|t + post| - 1]);
    } else {
      assert t + post == t;
    }
  }

  /** Whatever whitespace surrounds a trimmed text, `strip` returns exactly that text. */
  lemma {:induction false} StripPadded(pre: string, t: string, post: string)
    requires AllStripped(pre) && AllStripped(post) && Trimmed(t)
    ensures Strip(pre + t + post) == t
  {
    var s := pre + t + post;
    if t == [] {
      assert s == pre + post;
      assert AllStripped(s);
      LeadingStrippedAppend(s, []);
      assert s + [] == s;
      assert LeadingStripped(s) == |s|;
    } else {
      assert s == pre + (t + post);
      LeadingStrippedAppend(pre, t + post);
      assert (t + post)[0] == t[0];
      assert LeadingStripped(t + post) == 0;
      assert s[|pre|..] == t + post;
      TrailingStrippedAppend(t, post);
      assert TrailingStripped(t) == 0;
      assert (t + post)[..|t|] == t;
    }
  }

  lemma StripIdempotent(s: string)
    ensures Strip(Strip(s)) == Strip(s)
  {
    var r := Strip(s);
    assert [] + r + [] == r;
    StripPadded([], r, []);
  }

  /** `Array#join(sep)` on strings. */
  function JoinWith(sep: char, parts: seq<string>): string {
    if parts == [] then []
    else if |parts| == 1 then parts[0]
    else parts[0] + [sep] + JoinWith(sep, parts[1..])
  }

  /** The entries a `sep`-separated list denotes, empty entries included. */
  function Split(sep: char, s: string): (parts: seq<string>)
    ensures |parts| >= 1
  {
    if s == [] then [[]]
    else
      var rest := Split(sep, s[1..]);
      if s[0] == sep then [[]] + rest else [[s[0]] + rest[0]] + rest[1..]
  }

  lemma {:induction false} SplitNoSeparator(sep: char, p: string)
    requires sep !in p
    ensures Split(sep, p) == [p]
  {
    if p != [] {
      SplitNoSeparator(sep, p[1..]);
      assert [p[0]] + p[1..] == p;
    }
  }

  lemma {:induction false} SplitFirstEntry(sep: char, p: string, rest: string)
    requires sep !in p
    ensures Split(sep, p + [sep] + rest) == [p] + Split(sep, rest)
  {
    var s := p + [sep] + rest;
    if p == [] {
      assert s[1..] == rest;
    } else {
      assert s[1..] == p[1..] + [sep] + rest;
      SplitFirstEntry(sep, p[1..], rest);
      assert [p[0]] + p[1..] == p;
    }
  }

  /** Joining entries free of the separator and splitting the result gives the entries back. */
  lemma {:induction false} SplitJoin(sep: char, parts: seq<string>)
    requires |parts| >= 1
    requires forall i :: 0 <= i < |parts| ==> sep !in parts[i]
    ensures Split(sep, JoinWith(sep, parts)) == parts
  {
    if |parts| == 1 {
      SplitNoSeparator(sep, parts[0]);
    } else {
      SplitJoin(sep, parts[1..]);
      SplitFirstEntry(sep, parts[0], JoinWith(sep, parts[1..]));
      assert [parts[0]] + parts[1..] == parts;
    }
  }
}
