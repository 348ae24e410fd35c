/**
 * String primitives the two scripts take from Python's `str`: whitespace
 * splitting (`str.split()`), trimming (`str.strip()`), lowercasing
 * (`str.lower()`) and character deletion (`str.replace(c, "")`).
 * Case folding and whitespace are the ASCII subset of Python's Unicode rules.
 */
module Text {

  /** The ASCII characters that `str.split()` and `str.strip()` treat as whitespace. */
  const Whitespace: set<char> := {
    ' ', '\t', '\n', '\U{000B}', '\U{000C}', '\r',
    '\U{001C}', '\U{001D}', '\U{001E}', '\U{001F}'
  }

  predicate IsWhitespace(c: char) {
    c in Whitespace
  }

  predicate NoWhitespace(s: string) {
    forall i :: 0 <= i < |s| ==> !IsWhitespace(s[i])
  }

  predicate AllWhitespace(s: string) {
    forall i :: 0 <= i < |s| ==> IsWhitespace(s[i])
  }

  /** Neither the first nor the last character is whitespace. */
  predicate NoOuterWhitespace(s: string) {
    s == [] || (!IsWhitespace(s[0]) && !IsWhitespace(s[|s| - 1]))
  }

  // ---------------------------------------------------------------- strip

  /** Drops the leading whitespace: the result is a suffix of `s` and what was dropped is all whitespace. */
  function TrimLeft(s: string): (r: string)
    ensures |r| <= |s|
    ensures r == [] || !IsWhitespace(r[0])
  {
    if s != [] && IsWhitespace(s[0]) then TrimLeft(s[1..]) else s
  }

  lemma {:induction false} TrimLeftShape(s: string)
    ensures TrimLeft(s) == s[|s| - |TrimLeft(s)|..]
    ensures AllWhitespace(s[..|s| - |TrimLeft(s)|])
  {
    if s != [] && IsWhitespace(s[0]) {
      TrimLeftShape(s[1..]);
      assert s[1..][|s| - 1 - |TrimLeft(s)|..] == s[|s| - |TrimLeft(s)|..];
    }
  }

  /** Drops the trailing whitespace: the result is a prefix of `s` and what was dropped is all whitespace. */
  function TrimRight(s: string): (r: string)
    ensures |r| <= |s| && r == s[..|r|]
    ensures AllWhitespace(s[|r|..])
    ensures r == [] || !IsWhitespace(r[|r| - 1])
  {
    if s != [] && IsWhitespace(s[|s| - 1]) then TrimRight(s[..|s| - 1]) else s
  }

  /** `str.strip()` with no argument. */
  function Strip(s: string): string {
    TrimRight(TrimLeft(s))
  }

  /** Strip removes exactly a whitespace prefix and a whitespace suffix, and leaves no outer whitespace. */
  lemma StripShape(s: string)
    ensures NoOuterWhitespace(Strip(s))
    ensures exists i, j :: 0 <= i <= j <= |s| && Strip(s) == s[i..j]
                       && AllWhitespace(s[..i]) && AllWhitespace(s[j..])
  {
    TrimLeftShape(s);
    var t := TrimLeft(s);
    var r := TrimRight(t);
    var i := |s| - |t|;
    var j := i + |r|;
    assert r == s[i..j];
    assert s[j..] == t[|r|..];
    if r != [] {
      assert r[0] == t[0];
    }
  }

  /** On a whitespace-free string, Strip is the identity. */
  lemma StripNoWhitespace(s: string)
    requires NoWhitespace(s)
    ensures Strip(s) == s
  {
  }

  // ---------------------------------------------------------------- lower

  predicate IsUpper(c: char) {
    'A' <= c <= 'Z'
  }

  function LowerChar(c: char): char {
    if IsUpper(c) then (c as int - 'A' as int + 'a' as int) as char else c
  }

  /** `str.lower()`, restricted to ASCII. */
  function Lower(s: string): string {
    seq(|s|, i requires 0 <= i < |s| => LowerChar(s[i]))
  }

  predicate NoUpper(s: string) {
    forall i :: 0 <= i < |s| ==> !IsUpper(s[i])
  }

  /** Lowercasing leaves no uppercase letter, changes nothing else, and is the identity on strings with none. */
  lemma LowerFacts(s: string)
    ensures NoUpper(Lower(s))
    ensures forall i :: 0 <= i < |s| ==> (IsWhitespace(Lower(s)[i]) <==> IsWhitespace(s[i]))
    ensures NoUpper(s) ==> Lower(s) == s
  {
  }

  // ---------------------------------------------------------------- deletion

  /** The characters of `s` that are not in `drop`, in their original order. */
  function DeleteAll(s: string, drop: set<char>): (r: string)
    ensures |r| <= |s|
    ensures forall i :: 0 <= i < |r| ==> r[i] !in drop
  {
    if s == [] then [] else (if s[0] in drop then [] else [s[0]]) + DeleteAll(s[1..], drop)
  }

  /** Deleting adds no character: everything left was in `s`. */
  lemma {:induction false} DeleteAllFrom(s: string, drop: set<char>)
    ensures forall i :: 0 <= i < |DeleteAll(s, drop)| ==> DeleteAll(s, drop)[i] in s
  {
    if s != [] {
      DeleteAllFrom(s[1..], drop);
      var head := if s[0] in drop then [] else [s[0]];
      assert DeleteAll(s, drop) == head + DeleteAll(s[1..], drop);
      assert forall c :: c in s[1..] ==> c in s;
    }
  }

  /** `s.replace(c, "")` for a one-character `c`: every occurrence of `c` removed. */
  function Replace(s: string, c: char): string {
    DeleteAll(s, {c})
  }

  lemma {:induction false} DeleteAllAppend(a: string, b: string, drop: set<char>)
    ensures DeleteAll(a + b, drop) == DeleteAll(a, drop) + DeleteAll(b, drop)
  {
    if a == [] {
      assert a + b == b;
    } else {
      assert (a + b)[0] == a[0];
      assert (a + b)[1..] == a[1..] + b;
      DeleteAllAppend(a[1..], b, drop);
    }
  }

  /** Deleting one set of characters and then another is deleting their union. */
  lemma {:induction false} DeleteAllTwice(s: string, a: set<char>, b: set<char>)
    ensures DeleteAll(DeleteAll(s, a), b) == DeleteAll(s, a + b)
  {
    if s != [] {
      DeleteAllTwice(s[1..], a, b);
      var head := if s[0] in a then [] else [s[0]];
      DeleteAllAppend(head, DeleteAll(s[1..], a), b);
      if s[0] !in a {
        assert DeleteAll(head, b) == if s[0] in b then [] else [s[0]] by {
          assert head[1..] == [];
        }
      }
    }
  }

  /** Only the characters that actually occur in `s` matter to what is deleted. */
  lemma {:induction false} DeleteAllAgree(s: string, a: set<char>, b: set<char>)
    requires forall i :: 0 <= i < |s| ==> (s[i] in a <==> s[i] in b)
    ensures DeleteAll(s, a) == DeleteAll(s, b)
  {
    if s != [] {
      DeleteAllAgree(s[1..], a, b);
    }
  }

  /** Deleting characters none of which occurs leaves the string unchanged. */
  lemma {:induction false} DeleteAllNone(s: string, drop: set<char>)
    requires forall i :: 0 <= i < |s| ==> s[i] !in drop
    ensures DeleteAll(s, drop) == s
  {
    if s != [] {
      DeleteAllNone(s[1..], drop);
    }
  }

  /** Deleting from a string made only of deleted characters leaves nothing. */
  lemma {:induction false} DeleteAllEverything(s: string, drop: set<char>)
    requires forall i :: 0 <= i < |s| ==> s[i] in drop
    ensures DeleteAll(s, drop) == []
  {
    if s != [] {
      DeleteAllEverything(s[1..], drop);
    }
  }

  /** Every kept character keeps its multiplicity; every deleted one disappears. */
  lemma {:induction false} DeleteAllCount(s: string, drop: set<char>, c: char)
    ensures multiset(DeleteAll(s, drop))[c] == if c in drop then 0 else multiset(s)[c]
  {
    if s != [] {
      DeleteAllCount(s[1..], drop, c);
      assert s == [s[0]] + s[1..];
    }
  }

  // ---------------------------------------------------------------- split

  /** Length of the leading run of non-whitespace characters. */
  function TokenEnd(t: string): (n: nat)
    ensures n <= |t| && NoWhitespace(t[..n])
    ensures n == |t| || IsWhitespace(t[n])
  {
    if t == [] || IsWhitespace(t[0]) then 0 else 1 + TokenEnd(t[1..])
  }

  /** `str.split()` with no argument: the maximal runs of non-whitespace characters, in order. */
  function Split(s: string): (tokens: seq<string>)
    ensures forall i :: 0 <= i < |tokens| ==> tokens[i] != [] && NoWhitespace(tokens[i])
    decreases |s|
  {
    var t := TrimLeft(s);
    if t == [] then []
    else
      var n := TokenEnd(t);
      [t[..n]] + Split(t[n..])
  }

  function Concat(ss: seq<string>): string {
    if ss == [] then [] else ss[0] + Concat(ss[1..])
  }

  lemma {:induction false} ConcatAppend(a: seq<string>, b: seq<string>)
    ensures Concat(a + b) == Concat(a) + Concat(b)
  {
    if a == [] {
      assert a + b == b;
    } else {
      assert (a + b)[0] == a[0];
      assert (a + b)[1..] == a[1..] + b;
      ConcatAppend(a[1..], b);
    }
  }

  lemma ConcatCons(x: string, rest: seq<string>)
    ensures Concat([x] + rest) == x + Concat(rest)
  {
    assert ([x] + rest)[1..] == rest;
  }

  /** Leading whitespace contributes nothing once whitespace is deleted. */
  lemma DeleteWhitespacePrefix(s: string)
    ensures DeleteAll(s, Whitespace) == DeleteAll(TrimLeft(s), Whitespace)
  {
    TrimLeftShape(s);
    var t := TrimLeft(s);
    var k := |s| - |t|;
    assert s == s[..k] + t;
    DeleteAllAppend(s[..k], t, Whitespace);
    DeleteAllEverything(s[..k], Whitespace);
  }

  /** A leading token survives whitespace deletion intact. */
  lemma DeleteWhitespaceToken(t: string, n: nat)
    requires n <= |t| && NoWhitespace(t[..n])
    ensures DeleteAll(t, Whitespace) == t[..n] + DeleteAll(t[n..], Whitespace)
  {
    assert t == t[..n] + t[n..];
    DeleteAllAppend(t[..n], t[n..], Whitespace);
    DeleteAllNone(t[..n], Whitespace);
  }

  /** The tokens hold exactly the non-whitespace characters of the input, in order. */
  lemma {:induction false} SplitKeepsText(s: string)
    ensures Concat(Split(s)) == DeleteAll(s, Whitespace)
    decreases |s|
  {
    var t := TrimLeft(s);
    DeleteWhitespacePrefix(s);
    if t != [] {
      var n := TokenEnd(t);
      assert n > 0;
      SplitKeepsText(t[n..]);
      DeleteWhitespaceToken(t, n);
      ConcatCons(t[..n], Split(t[n..]));
    }
  }

  lemma {:induction false} TrimLeftAppend(a: string, b: string)
    ensures TrimLeft(a) != [] ==> TrimLeft(a + b) == TrimLeft(a) + b
    ensures TrimLeft(a) == [] ==> TrimLeft(a + b) == TrimLeft(b)
  {
    if a == [] {
      assert a + b == b;
    } else {
      assert (a + b)[0] == a[0];
      if IsWhitespace(a[0]) {
        assert (a + b)[1..] == a[1..] + b;
        TrimLeftAppend(a[1..], b);
      }
    }
  }

  lemma {:induction false} TokenEndAppend(a: string, b: string)
    requires TokenEnd(a) < |a|
    ensures TokenEnd(a + b) == TokenEnd(a)
  {
    assert (a + b)[0] == a[0];
    if !IsWhitespace(a[0]) {
      assert (a + b)[1..] == a[1..] + b;
      TokenEndAppend(a[1..], b);
    }
  }

  /**
   * Splitting text that breaks at a whitespace character is splitting the two
   * halves separately: reading line by line (each line ending in a newline)
   * yields the same tokens as splitting the whole text at once.
   */
  lemma {:induction false} SplitAppend(a: string, b: string)
    requires a == [] || IsWhitespace(a[|a| - 1])
    ensures Split(a + b) == Split(a) + Split(b)
    decreases |a|
  {
    if a == [] {
      assert a + b == b;
    } else {
      TrimLeftAppend(a, b);
      var t := TrimLeft(a);
      if t == [] {
        SplitUnfold(a);
        SplitUnfold(a + b);
        SplitUnfold(b);
      } else {
        TrimLeftShape(a);
        assert t[|t| - 1] == a[|a| - 1];
        SplitHead(t, b);
        var n := TokenEnd(t);
        SplitAppend(t[n..], b);
        SplitAppendStep(a, b, t, n);
      }
    }
  }

  /** The inductive step of SplitAppend, with the hypothesis for the rest of the text given. */
  lemma SplitAppendStep(a: string, b: string, t: string, n: nat)
    requires t == TrimLeft(a) && t != [] && TrimLeft(a + b) == t + b
    requires n == TokenEnd(t) && n < |t|
    requires TokenEnd(t + b) == n
    requires (t + b)[..n] == t[..n] && (t + b)[n..] == t[n..] + b
    requires Split(t[n..] + b) == Split(t[n..]) + Split(b)
    ensures Split(a + b) == Split(a) + Split(b)
  {
    SplitUnfold(a);
    SplitUnfold(a + b);
  }

  /** The first token of `t + b` lies wholly within `t` when `t` ends in whitespace. */
  lemma SplitHead(t: string, b: string)
    requires t != [] && IsWhitespace(t[|t| - 1])
    ensures TokenEnd(t) < |t|
    ensures TokenEnd(t + b) == TokenEnd(t)
    ensures (t + b)[..TokenEnd(t)] == t[..TokenEnd(t)]
    ensures (t + b)[TokenEnd(t)..] == t[TokenEnd(t)..] + b
    ensures IsWhitespace(t[TokenEnd(t)..][|t[TokenEnd(t)..]| - 1])
  {
    var n := TokenEnd(t);
    assert t[..|t|] == t && !NoWhitespace(t);
    TokenEndAppend(t, b);
  }

  /** One step of Split, stated on its own so that callers need not unfold the definition. */
  lemma SplitUnfold(s: string)
    ensures TrimLeft(s) == [] ==> Split(s) == []
    ensures TrimLeft(s) != [] ==>
      Split(s) == [TrimLeft(s)[..TokenEnd(TrimLeft(s))]] + Split(TrimLeft(s)[TokenEnd(TrimLeft(s))..])
  {
  }

  /** The tokens of a sequence of lines, line after line. */
  function SplitLines(lines: seq<string>): seq<string> {
    if lines == [] then [] else Split(lines[0]) + SplitLines(lines[1..])
  }

  /** Every line but the last ends in whitespace: what `readline` yields. */
  predicate LineTerminated(lines: seq<string>) {
    forall i :: 0 <= i < |lines| - 1 ==> lines[i] != [] && IsWhitespace(lines[i][|lines[i]| - 1])
  }

  /** Splitting line by line agrees with splitting the concatenated text. */
  lemma {:induction false} SplitLinesIsSplit(lines: seq<string>)
    requires LineTerminated(lines)
    ensures SplitLines(lines) == Split(Concat(lines))
  {
    if lines != [] {
      assert LineTerminated(lines[1..]);
      SplitLinesIsSplit(lines[1..]);
      if |lines| == 1 {
        assert lines[1..] == [];
        assert Concat(lines) == lines[0];
      } else {
        SplitAppend(lines[0], Concat(lines[1..]));
      }
    }
  }
}
