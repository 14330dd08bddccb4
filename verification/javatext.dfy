/** The few `java.lang.String` and `Integer` operations the backend leans
    on: `trim`, ASCII case mapping, `startsWith`, `replace`, `split` on a
    single character, `Integer.toString` and `Integer.parseInt`. */
module JavaText {
  import opened Base

  /** `String.trim()` removes every leading and trailing char <= U+0020. */
  predicate IsSpace(c: char) {
    c <= ' '
  }

  predicate AllSpaces(s: string) {
    forall i :: 0 <= i < |s| ==> IsSpace(s[i])
  }

  /** True when `s` neither starts nor ends with a trimmable char. */
  predicate Trimmed(s: string) {
    s == [] || (!IsSpace(s[0]) && !IsSpace(s[|s| - 1]))
  }

  /** `s` without its leading trimmable chars: a suffix of `s`. */
  function TrimStart(s: string): (r: string)
    ensures |r| <= |s|
    ensures r != [] ==> r[0] == s[|s| - |r|]
    ensures r == [] || !IsSpace(r[0])
    ensures AllSpaces(s[..|s| - |r|])
  {
    if |s| > 0 && IsSpace(s[0]) then TrimStart(s[1..]) else s
  }

  /** `s` without its trailing trimmable chars: a prefix of `s`. */
  function TrimEnd(s: string): (r: string)
    ensures |r| <= |s|
    ensures r != [] ==> r[0] == s[0]
    ensures r == [] || !IsSpace(r[|r| - 1])
    ensures AllSpaces(s[|r|..])
  {
    if |s| > 0 && IsSpace(s[|s| - 1]) then TrimEnd(s[..|s| - 1]) else s
  }

  /** `TrimStart` keeps a suffix of its input. */
  lemma {:induction false} TrimStartIsSuffix(s: string)
    ensures TrimStart(s) == s[|s| - |TrimStart(s)|..]
    decreases |s|
  {
    if |s| > 0 && IsSpace(s[0]) {
      var r := TrimStart(s[1..]);
      TrimStartIsSuffix(s[1..]);
      assert s[1..][|s| - 1 - |r|..] == s[|s| - |r|..];
    }
  }

  /** `TrimEnd` keeps a prefix of its input. */
  lemma {:induction false} TrimEndIsPrefix(s: string)
    ensures TrimEnd(s) == s[..|TrimEnd(s)|]
    decreases |s|
  {
    if |s| > 0 && IsSpace(s[|s| - 1]) {
      var r := TrimEnd(s[..|s| - 1]);
      TrimEndIsPrefix(s[..|s| - 1]);
      assert s[..|s| - 1][..|r|] == s[..|r|];
    }
  }

  /** `s.trim()`: neither starts nor ends with a blank, is empty exactly
      for an all-blank input, and leaves a trimmed input alone.
      `TrimIsMiddle` says which chars it keeps. */
  function Trim(s: string): (r: string)
    ensures Trimmed(r)
    ensures |r| <= |s|
    ensures r == [] <==> AllSpaces(s)
    ensures Trimmed(s) ==> r == s
  {
    TrimEnds(s);
    TrimEnd(TrimStart(s))
  }

  /** `s.trim()` is the middle of `s`: the chars from `a` on, after a blank
      prefix and before a blank suffix. */
  lemma TrimIsMiddle(s: string) returns (a: nat)
    ensures a + |Trim(s)| <= |s| && Trim(s) == s[a..a + |Trim(s)|]
    ensures AllSpaces(s[..a]) && AllSpaces(s[a + |Trim(s)|..])
  {
    TrimMiddle(s);
    TrimDropsBlanks(s);
    a := |s| - |TrimStart(s)|;
  }

  /** The two halves of `trim` keep the chars after the leading blanks
      and before the trailing ones. */
  lemma TrimMiddle(s: string)
    ensures var a := |s| - |TrimStart(s)|; var r := TrimEnd(TrimStart(s));
      a + |r| <= |s| && r == s[a..a + |r|]
  {
    var t := TrimStart(s);
    TrimStartIsSuffix(s);
    TrimEndIsPrefix(t);
    PrefixOfSuffix(s, |s| - |t|, |TrimEnd(t)|);
  }

  /** What the two halves of `trim` drop is blank. */
  lemma TrimDropsBlanks(s: string)
    ensures var a := |s| - |TrimStart(s)|; var r := TrimEnd(TrimStart(s));
      a + |r| <= |s| && AllSpaces(s[..a]) && AllSpaces(s[a + |r|..])
  {
    var t := TrimStart(s);
    var a := |s| - |t|;
    TrimStartIsSuffix(s);
    SuffixOfSuffix(s, a, |TrimEnd(t)|);
  }

  /** What is left neither starts nor ends with a blank, is empty only for
      an all-blank input, and is the input itself when that is trimmed. */
  lemma TrimEnds(s: string)
    ensures var r := TrimEnd(TrimStart(s));
      && Trimmed(r) && (r == [] <==> AllSpaces(s)) && (Trimmed(s) ==> r == s)
  {
    var t := TrimStart(s);
    var r := TrimEnd(t);
    assert t == [] ==> AllSpaces(s) by {
      assert s[..|s|] == s;
    }
    assert r == [] ==> AllSpaces(t) by {
      assert t[0..] == t;
    }
    assert r != [] ==> r[0] == t[0];
  }

  /** `s.trim().isEmpty()`: null-free blank test used by the controllers. */
  predicate IsBlank(s: string) {
    Trim(s) == []
  }

  /** Every char of `s` satisfies `P`. */
  predicate AllChars(s: string, P: char -> bool) {
    forall i :: 0 <= i < |s| ==> P(s[i])
  }

  /** Trimming only removes chars, so whatever holds of every char of `s`
      holds of every char of its trimmed form. */
  lemma TrimKeeps(s: string, P: char -> bool)
    requires AllChars(s, P)
    ensures AllChars(Trim(s), P)
  {
    TrimStartKeeps(s, P);
    TrimEndKeeps(TrimStart(s), P);
  }

  lemma {:induction false} TrimStartKeeps(s: string, P: char -> bool)
    requires AllChars(s, P)
    ensures AllChars(TrimStart(s), P)
    decreases |s|
  {
    if |s| > 0 && IsSpace(s[0]) {
      assert forall i :: 0 <= i < |s| - 1 ==> s[1..][i] == s[i + 1];
      TrimStartKeeps(s[1..], P);
    }
  }

  lemma {:induction false} TrimEndKeeps(s: string, P: char -> bool)
    requires AllChars(s, P)
    ensures AllChars(TrimEnd(s), P)
    decreases |s|
  {
    if |s| > 0 && IsSpace(s[|s| - 1]) {
      assert forall i :: 0 <= i < |s| - 1 ==> s[..|s| - 1][i] == s[i];
      TrimEndKeeps(s[..|s| - 1], P);
    }
  }

  function IsNotLower(c: char): bool {
    !('a' <= c <= 'z')
  }

  function IsNotUpper(c: char): bool {
    !('A' <= c <= 'Z')
  }

  /** Trimming keeps a string free of lower-case letters. */
  lemma TrimNoLower(s: string)
    requires NoLowerAscii(s)
    ensures NoLowerAscii(Trim(s))
  {
    assert AllChars(s, IsNotLower);
    TrimKeeps(s, IsNotLower);
    assert forall i :: 0 <= i < |Trim(s)| ==> IsNotLower(Trim(s)[i]);
  }

  /** Trimming keeps a string free of upper-case letters. */
  lemma TrimNoUpper(s: string)
    requires NoUpperAscii(s)
    ensures NoUpperAscii(Trim(s))
  {
    assert AllChars(s, IsNotUpper);
    TrimKeeps(s, IsNotUpper);
    assert forall i :: 0 <= i < |Trim(s)| ==> IsNotUpper(Trim(s)[i]);
  }

  lemma TrimIdempotent(s: string)
    ensures Trim(Trim(s)) == Trim(s)
  {
  }

  /** Leading blanks vanish under `trim`. */
  lemma {:induction false} TrimSkipsLeadingSpace(c: char, s: string)
    requires IsSpace(c)
    ensures Trim([c] + s) == Trim(s)
  {
    assert ([c] + s)[1..] == s;
  }

  /** A string that starts with a non-blank char keeps that char first. */
  lemma {:induction false} TrimKeepsHead(c: char, s: string)
    requires !IsSpace(c)
    ensures Trim([c] + s) == [c] + TrimEnd(s)
    ensures TrimEnd([c] + s) == [c] + TrimEnd(s)
  {
    TrimEndOfCons(c, s);
  }

  /** Joining two strings keeps them trimmed when the first does not start
      and the second does not end with a blank. */
  lemma TrimmedConcat(a: string, b: string)
    requires a != [] && !IsSpace(a[0]) && b != [] && !IsSpace(b[|b| - 1])
    ensures Trimmed(a + b) && Trim(a + b) == a + b
  {
    assert (a + b)[0] == a[0];
    assert (a + b)[|a + b| - 1] == b[|b| - 1];
  }

  /** One blank before a non-blank char: `trim` starts at that char. */
  lemma {:induction false} TrimAfterSpace(h: char, t: string)
    requires !IsSpace(h)
    ensures |Trim([' '] + [h] + t)| > 0 && Trim([' '] + [h] + t)[0] == h
  {
    var s := [h] + t;
    assert [' '] + [h] + t == [' '] + s;
    TrimSkipsLeadingSpace(' ', s);
    TrimKeepsHead(h, t);
  }

  lemma {:induction false} TrimEndOfCons(c: char, s: string)
    requires !IsSpace(c)
    ensures TrimEnd([c] + s) == [c] + TrimEnd(s)
    decreases |s|
  {
    var cs := [c] + s;
    if |s| > 0 && IsSpace(s[|s| - 1]) {
      assert cs[..|cs| - 1] == [c] + s[..|s| - 1];
      TrimEndOfCons(c, s[..|s| - 1]);
    }
  }

  // ---------------------------------------------------------------- case

  function UpperChar(c: char): char {
    if 'a' <= c <= 'z' then (c as int - 32) as char else c
  }

  function LowerChar(c: char): char {
    if 'A' <= c <= 'Z' then (c as int + 32) as char else c
  }

  /** `toUpperCase()`, restricted to the ASCII letters: each lower-case
      letter moves 32 code points down to its capital, every other char is
      kept. */
  function ToUpper(s: string): (r: string)
    ensures |r| == |s|
    ensures forall i :: 0 <= i < |s| ==> !('a' <= r[i] <= 'z')
    ensures forall i :: 0 <= i < |s| ==>
      (if 'a' <= s[i] <= 'z' then r[i] as int == s[i] as int - 32 else r[i] == s[i])
  {
    seq(|s|, i requires 0 <= i < |s| => UpperChar(s[i]))
  }

  /** `toLowerCase()`, restricted to the ASCII letters: each capital moves
      32 code points up to its lower-case letter, every other char is
      kept. */
  function ToLower(s: string): (r: string)
    ensures |r| == |s|
    ensures forall i :: 0 <= i < |s| ==> !('A' <= r[i] <= 'Z')
    ensures forall i :: 0 <= i < |s| ==>
      (if 'A' <= s[i] <= 'Z' then r[i] as int == s[i] as int + 32 else r[i] == s[i])
  {
    seq(|s|, i requires 0 <= i < |s| => LowerChar(s[i]))
  }

  predicate NoLowerAscii(s: string) {
    forall i :: 0 <= i < |s| ==> !('a' <= s[i] <= 'z')
  }

  predicate NoUpperAscii(s: string) {
    forall i :: 0 <= i < |s| ==> !('A' <= s[i] <= 'Z')
  }

  /** Two strings with blanks in the same places. */
  predicate SameSpaces(s: string, t: string) {
    |s| == |t| && forall i :: 0 <= i < |s| ==> (IsSpace(s[i]) <==> IsSpace(t[i]))
  }

  lemma {:induction false} TrimStartSameSpaces(s: string, t: string)
    requires SameSpaces(s, t)
    ensures |TrimStart(s)| == |TrimStart(t)|
    decreases |s|
  {
    if |s| > 0 && IsSpace(s[0]) {
      assert forall i :: 0 <= i < |s| - 1 ==> s[1..][i] == s[i + 1] && t[1..][i] == t[i + 1];
      TrimStartSameSpaces(s[1..], t[1..]);
    }
  }

  lemma {:induction false} TrimEndSameSpaces(s: string, t: string)
    requires SameSpaces(s, t)
    ensures |TrimEnd(s)| == |TrimEnd(t)|
    decreases |s|
  {
    if |s| > 0 && IsSpace(s[|s| - 1]) {
      assert forall i :: 0 <= i < |s| - 1 ==> s[..|s| - 1][i] == s[i] && t[..|s| - 1][i] == t[i];
      TrimEndSameSpaces(s[..|s| - 1], t[..|s| - 1]);
    }
  }

  /** Strings with blanks in the same places lose as many leading and as
      many trailing blanks. */
  lemma TrimHalvesSameSpaces(s: string, t: string)
    requires SameSpaces(s, t)
    ensures |TrimStart(s)| == |TrimStart(t)|
    ensures |TrimEnd(TrimStart(s))| == |TrimEnd(TrimStart(t))|
  {
    TrimStartSameSpaces(s, t);
    var b := |s| - |TrimStart(s)|;
    TrimStartIsSuffix(s);
    TrimStartIsSuffix(t);
    SameSpacesSuffix(s, t, b);
    TrimEndSameSpaces(s[b..], t[b..]);
  }

  /** Strings with blanks in the same places are trimmed at the same
      positions: both keep the chars from `a` to `a + n`. */
  lemma TrimSameSpaces(s: string, t: string) returns (a: nat, n: nat)
    requires SameSpaces(s, t)
    ensures a + n <= |s|
    ensures TrimEnd(TrimStart(s)) == s[a..a + n] && TrimEnd(TrimStart(t)) == t[a..a + n]
  {
    TrimHalvesSameSpaces(s, t);
    TrimMiddle(s);
    TrimMiddle(t);
    a, n := |s| - |TrimStart(s)|, |TrimEnd(TrimStart(s))|;
  }

  lemma SameSpacesSuffix(s: string, t: string, b: nat)
    requires SameSpaces(s, t) && b <= |s|
    ensures SameSpaces(s[b..], t[b..])
  {
    assert forall i :: 0 <= i < |s| - b ==> s[b..][i] == s[b + i] && t[b..][i] == t[b + i];
  }

  lemma SuffixOfSuffix(s: string, a: nat, n: nat)
    requires a + n <= |s|
    ensures s[a..][n..] == s[a + n..]
  {
    assert forall i :: 0 <= i < |s| - a - n ==> s[a..][n..][i] == s[a + n + i];
  }

  lemma PrefixOfSuffix(s: string, a: nat, n: nat)
    requires a + n <= |s|
    ensures s[a..][..n] == s[a..a + n]
  {
    assert forall i :: 0 <= i < n ==> s[a..][..n][i] == s[a + i];
  }

  /** Case mapping never touches a blank, so it commutes with `trim`:
      `s.toUpperCase().trim()` is `s.trim().toUpperCase()`. */
  lemma TrimUpperCommute(s: string)
    ensures Trim(ToUpper(s)) == ToUpper(Trim(s))
  {
    var u := ToUpper(s);
    assert SameSpaces(s, u);
    var a, n := TrimSameSpaces(s, u);
    UpperSlice(s, a, n);
  }

  /** Likewise `s.toLowerCase().trim()` is `s.trim().toLowerCase()`. */
  lemma TrimLowerCommute(s: string)
    ensures Trim(ToLower(s)) == ToLower(Trim(s))
  {
    var l := ToLower(s);
    assert SameSpaces(s, l);
    var a, n := TrimSameSpaces(s, l);
    LowerSlice(s, a, n);
  }

  lemma UpperSlice(s: string, a: nat, n: nat)
    requires a + n <= |s|
    ensures ToUpper(s[a..a + n]) == ToUpper(s)[a..a + n]
  {
    var x, u := s[a..a + n], ToUpper(s);
    assert forall i :: 0 <= i < n ==> x[i] == s[a + i];
    assert forall i :: 0 <= i < n ==> ToUpper(x)[i] == u[a + i];
  }

  lemma LowerSlice(s: string, a: nat, n: nat)
    requires a + n <= |s|
    ensures ToLower(s[a..a + n]) == ToLower(s)[a..a + n]
  {
    var x, u := s[a..a + n], ToLower(s);
    assert forall i :: 0 <= i < n ==> x[i] == s[a + i];
    assert forall i :: 0 <= i < n ==> ToLower(x)[i] == u[a + i];
  }

  lemma ToLowerNoUpper(s: string)
    requires NoUpperAscii(s)
    ensures ToLower(s) == s
  {
  }

  lemma ToUpperNoLower(s: string)
    requires NoLowerAscii(s)
    ensures ToUpper(s) == s
  {
  }

  // -------------------------------------------------------- prefixes, infixes

  /** `s.startsWith(p)`. */
  predicate StartsWith(s: string, p: string) {
    |p| <= |s| && s[..|p|] == p
  }

  /** `s.replace(pat, "")`: every non-overlapping occurrence of `pat`, scanned
      left to right, is removed. */
  function RemoveAll(s: string, pat: string): (r: string)
    requires |pat| > 0
    ensures |r| <= |s|
    decreases |s|
  {
    if |s| == 0 then []
    else if StartsWith(s, pat) then RemoveAll(s[|pat|..], pat)
    else [s[0]] + RemoveAll(s[1..], pat)
  }

  /** A leading occurrence of the pattern is dropped. */
  lemma {:induction false} RemoveLeading(pat: string, body: string)
    requires |pat| > 0
    ensures StartsWith(pat + body, pat)
    ensures RemoveAll(pat + body, pat) == RemoveAll(body, pat)
  {
    assert (pat + body)[..|pat|] == pat;
    assert (pat + body)[|pat|..] == body;
  }

  /** Removing a pattern whose first char never occurs changes nothing. */
  lemma {:induction false} RemoveAbsent(s: string, pat: string)
    requires |pat| > 0 && pat[0] !in s
    ensures RemoveAll(s, pat) == s
    decreases |s|
  {
    if |s| > 0 {
      assert !StartsWith(s, pat) by {
        if |pat| <= |s| {
          assert s[..|pat|][0] == s[0];
        }
      }
      RemoveAbsent(s[1..], pat);
      assert s == [s[0]] + s[1..];
    }
  }

  /** Removing a single char deletes exactly its occurrences. */
  lemma {:induction false} RemoveCharSpec(s: string, c: char)
    ensures c !in RemoveAll(s, [c])
    ensures c !in s ==> RemoveAll(s, [c]) == s
    decreases |s|
  {
    if |s| > 0 {
      RemoveCharSpec(s[1..], c);
      if !StartsWith(s, [c]) {
        assert s[..1] == [s[0]];
        if c !in s {
          assert s == [s[0]] + s[1..];
        }
      }
    }
  }

  /** Removing a char that splits the string distributes over the parts. */
  lemma {:induction false} RemoveCharConcat(a: string, b: string, c: char)
    ensures RemoveAll(a + b, [c]) == RemoveAll(a, [c]) + RemoveAll(b, [c])
    decreases |a|
  {
    if |a| > 0 {
      assert (a + b)[1..] == a[1..] + b;
      assert (a + b)[..1] == a[..1];
      RemoveCharConcat(a[1..], b, c);
    } else {
      assert a + b == b;
    }
  }

  /** Removing a char that occurs exactly once, between `x` and `y`, leaves
      the two sides joined. */
  lemma RemoveSole(x: string, y: string, c: char)
    requires c !in x && c !in y
    ensures RemoveAll(x + [c] + y, [c]) == x + y
  {
    assert RemoveAll([c], [c]) == [] by {
      assert StartsWith([c], [c]);
      assert [c][1..] == [];
    }
    calc {
      RemoveAll(x + [c] + y, [c]);
      { assert x + [c] + y == x + ([c] + y); }
      RemoveAll(x + ([c] + y), [c]);
      { RemoveCharConcat(x, [c] + y, c); }
      RemoveAll(x, [c]) + RemoveAll([c] + y, [c]);
      { RemoveCharConcat([c], y, c); }
      RemoveAll(x, [c]) + (RemoveAll([c], [c]) + RemoveAll(y, [c]));
      { RemoveCharSpec(x, c); RemoveCharSpec(y, c); }
      x + ([] + y);
      { assert [] + y == y; }
      x + y;
    }
  }

  // ------------------------------------------------------------------ split

  /** All pieces of `s` between occurrences of `c`, empty ones included. */
  function SplitOn(s: string, c: char): (parts: seq<string>)
    ensures |parts| >= 1
    ensures forall k :: 0 <= k < |parts| ==> c !in parts[k]
    ensures Join(parts, c) == s
    decreases |s|
  {
    if s == [] then [[]]
    else
      var rest := SplitOn(s[1..], c);
      if s[0] == c then
        assert Join([[]] + rest, c) == [c] + Join(rest, c) by {
          JoinCons([], rest, c);
        }
        [[]] + rest
      else
        var parts := [[s[0]] + rest[0]] + rest[1..];
        assert Join(parts, c) == s by {
          if |rest| > 1 {
            assert rest == [rest[0]] + rest[1..];
            JoinCons(rest[0], rest[1..], c);
            JoinCons([s[0]] + rest[0], rest[1..], c);
          }
        }
        parts
  }

  /** Glue `parts` back together with `c` between neighbours. */
  function Join(parts: seq<string>, c: char): string
    requires |parts| >= 1
    decreases |parts|
  {
    if |parts| == 1 then parts[0]
    else parts[0] + [c] + Join(parts[1..], c)
  }

  lemma JoinCons(p: string, rest: seq<string>, c: char)
    requires |rest| >= 1
    ensures Join([p] + rest, c) == p + [c] + Join(rest, c)
  {
    assert ([p] + rest)[1..] == rest;
  }

  /** Splitting undoes joining when no part holds the separator. */
  lemma {:induction false} SplitJoin(parts: seq<string>, c: char)
    requires |parts| >= 1
    requires forall k :: 0 <= k < |parts| ==> c !in parts[k]
    ensures SplitOn(Join(parts, c), c) == parts
    decreases |parts|
  {
    if |parts| == 1 {
      SplitNoSeparator(parts[0], c);
    } else {
      SplitJoin(parts[1..], c);
      SplitPrefix(parts[0], Join(parts[1..], c), c);
      assert parts == [parts[0]] + parts[1..];
    }
  }

  lemma {:induction false} SplitNoSeparator(s: string, c: char)
    requires c !in s
    ensures SplitOn(s, c) == [s]
    decreases |s|
  {
    if s != [] {
      SplitNoSeparator(s[1..], c);
      assert s == [s[0]] + s[1..];
    }
  }

  lemma {:induction false} SplitPrefix(a: string, b: string, c: char)
    requires c !in a
    ensures SplitOn(a + [c] + b, c) == [a] + SplitOn(b, c)
    decreases |a|
  {
    var s := a + [c] + b;
    if a == [] {
      assert s[1..] == b;
    } else {
      assert s[1..] == a[1..] + [c] + b;
      SplitPrefix(a[1..], b, c);
      assert a == [a[0]] + a[1..];
    }
  }

  function DropTrailingEmpty(parts: seq<string>): (r: seq<string>)
    ensures |r| <= |parts| && r == parts[..|r|]
    ensures r == [] || r[|r| - 1] != []
    decreases |parts|
  {
    if |parts| > 0 && parts[|parts| - 1] == [] then DropTrailingEmpty(parts[..|parts| - 1])
    else parts
  }

  /** `s.split(String.valueOf(c))` for a separator that is not a regex
      metacharacter: no match gives the whole string, otherwise trailing
      empty pieces are dropped. */
  function JavaSplit(s: string, c: char): (r: seq<string>)
    ensures c !in s ==> r == [s]
    ensures c in s ==> r == DropTrailingEmpty(SplitOn(s, c))
  {
    if c !in s then [s] else DropTrailingEmpty(SplitOn(s, c))
  }

  // ---------------------------------------------------------------- numbers

  predicate IsDigit(c: char) {
    '0' <= c <= '9'
  }

  predicate AllDigits(s: string) {
    forall i :: 0 <= i < |s| ==> IsDigit(s[i])
  }

  function DigitChar(d: nat): (c: char)
    requires d < 10
    ensures IsDigit(c)
  {
    ('0' as int + d) as char
  }

  function DigitValue(c: char): (d: nat)
    requires IsDigit(c)
    ensures d < 10
  {
    (c as int - '0' as int)
  }

  /** Decimal digits of a non-negative number, most significant first, no
      leading zero. */
  function NatToString(n: nat): (r: string)
    ensures |r| >= 1 && AllDigits(r)
    ensures r[0] != '0' || n == 0
    decreases n
  {
    if n < 10 then [DigitChar(n)] else NatToString(n / 10) + [DigitChar(n % 10)]
  }

  /** `Integer.toString(n)` / `Long.toString(n)`. */
  function IntToString(n: int): (r: string)
    ensures |r| >= 1
    ensures n >= 0 ==> AllDigits(r)
    ensures n < 0 ==> r[0] == '-' && |r| >= 2 && AllDigits(r[1..])
  {
    if n < 0 then "-" + NatToString(-n) else NatToString(n)
  }

  function DigitsValue(s: string): nat
    requires AllDigits(s)
    decreases |s|
  {
    if s == [] then 0 else DigitsValue(s[..|s| - 1]) * 10 + DigitValue(s[|s| - 1])
  }

  /** An optional sign followed by one or more ASCII digits, read without a
      range limit (the shape `Long.toString` produces). */
  function ParseDecimal(s: string): (r: Option<int>)
    ensures r.Some? ==> |s| >= 1
    ensures AllDigits(s) && s != [] ==> r == Some(DigitsValue(s))
  {
    if s == [] then None
    else
      var body := if s[0] == '-' || s[0] == '+' then s[1..] else s;
      if body == [] || !AllDigits(body) then None
      else
        var d: int := DigitsValue(body);
        Some(if s[0] == '-' then -d else d)
  }

  /** `Integer.parseInt(s)`: a decimal whose value fits in an `int`; anything
      else is a NumberFormatException, modelled as `None`. */
  function ParseInt(s: string): (r: Option<int>)
    ensures r.Some? ==> IsInt32(r.value)
    ensures r.Some? <==> ParseDecimal(s).Some? && IsInt32(ParseDecimal(s).value)
    ensures r.Some? ==> r == ParseDecimal(s)
  {
    match ParseDecimal(s)
    case Some(v) => if IsInt32(v) then Some(v) else None
    case None => None
  }

  lemma {:induction false} DigitsOfNat(n: nat)
    ensures DigitsValue(NatToString(n)) == n
    decreases n
  {
    if n >= 10 {
      var s := NatToString(n);
      DigitsOfNat(n / 10);
      assert s[..|s| - 1] == NatToString(n / 10);
    }
  }

  /** Reading a decimal back gives the number that was written. */
  lemma ParseDecimalToString(n: int)
    ensures ParseDecimal(IntToString(n)) == Some(n)
  {
    if n < 0 {
      DigitsOfNat(-n);
      assert IntToString(n)[1..] == NatToString(-n);
    } else {
      DigitsOfNat(n);
    }
  }

  /** `parseInt` reads back what `toString` wrote. */
  lemma ParseIntToString(n: int)
    requires IsInt32(n)
    ensures ParseInt(IntToString(n)) == Some(n)
  {
    ParseDecimalToString(n);
  }

  /** A decimal rendering holds only digits and a leading minus sign. */
  lemma IntToStringChars(n: int, c: char)
    requires !IsDigit(c) && c != '-'
    ensures c !in IntToString(n)
  {
    var r := IntToString(n);
    if n < 0 {
      assert forall i :: 1 <= i < |r| ==> r[i] == r[1..][i - 1];
    }
  }

  /** The decimal text of an int has no blanks at its ends. */
  lemma IntToStringTrimmed(n: int)
    ensures Trimmed(IntToString(n)) && Trim(IntToString(n)) == IntToString(n)
  {
    var t := IntToString(n);
    assert !IsSpace(t[0]) && !IsSpace(t[|t| - 1]) by {
      if n >= 0 {
        assert IsDigit(t[0]) && IsDigit(t[|t| - 1]);
      } else {
        assert t[|t| - 1] == t[1..][|t| - 2];
      }
    }
  }
}
