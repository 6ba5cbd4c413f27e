/** The parts of the JavaScript string library that the analysis engine in
    main.js relies on, as functions over `string` (a sequence of characters):
    `toLowerCase`, `toUpperCase`, `trim`, `includes`, and `split` on a class of
    single characters. */
module Text {

  /** ASCII part of `toLowerCase` on one character; every other character is
      left alone. */
  function LowerChar(c: char): (d: char)
    ensures 'A' <= c <= 'Z' ==> 'a' <= d <= 'z' && d as int - c as int == 32
    ensures !('A' <= c <= 'Z') ==> d == c
  {
    if 'A' <= c <= 'Z' then (c as int + 32) as char else c
  }

  /** ASCII part of `toUpperCase` on one character. */
  function UpperChar(c: char): (d: char)
    ensures 'a' <= c <= 'z' ==> 'A' <= d <= 'Z' && c as int - d as int == 32
    ensures !('a' <= c <= 'z') ==> d == c
  {
    if 'a' <= c <= 'z' then (c as int - 32) as char else c
  }

  /** `s.toLowerCase()`, character by character. */
  function ToLower(s: string): (r: string)
    ensures |r| == |s|
    ensures forall i :: 0 <= i < |s| ==> r[i] == LowerChar(s[i])
  {
    seq(|s|, i requires 0 <= i < |s| => LowerChar(s[i]))
  }

  /** Lower-casing twice is lower-casing once. */
  lemma LowerIdempotent(s: string)
    ensures ToLower(ToLower(s)) == ToLower(s)
  {
    var once := ToLower(s);
    forall i | 0 <= i < |s| ensures ToLower(once)[i] == once[i] {
      assert LowerChar(LowerChar(s[i])) == LowerChar(s[i]);
    }
  }

  /** `s.toUpperCase()`, character by character. */
  function ToUpper(s: string): (r: string)
    ensures |r| == |s|
    ensures forall i :: 0 <= i < |s| ==> r[i] == UpperChar(s[i])
  {
    seq(|s|, i requires 0 <= i < |s| => UpperChar(s[i]))
  }

  /** The characters ECMAScript calls WhiteSpace or LineTerminator: what
      `trim` removes and what the regular-expression class `\s` matches. */
  predicate IsWhitespace(c: char)
  {
    || '\t' <= c <= '\r'
    || c == ' ' || c == '\U{00A0}' || c == '\U{1680}'
    || '\U{2000}' <= c <= '\U{200A}'
    || c == '\U{2028}' || c == '\U{2029}' || c == '\U{202F}' || c == '\U{205F}'
    || c == '\U{3000}' || c == '\U{FEFF}'
  }

  /** The same characters as a set, for splitting at `\s`. */
  const Whitespace: set<char> := {
    '\t', '\n', '\U{000B}', '\U{000C}', '\r', ' ', '\U{00A0}', '\U{1680}',
    '\U{2000}', '\U{2001}', '\U{2002}', '\U{2003}', '\U{2004}', '\U{2005}',
    '\U{2006}', '\U{2007}', '\U{2008}', '\U{2009}', '\U{200A}',
    '\U{2028}', '\U{2029}', '\U{202F}', '\U{205F}', '\U{3000}', '\U{FEFF}'
  }

  /** The set and the predicate agree on every character. */
  lemma WhitespaceMembers(c: char)
    ensures c in Whitespace <==> IsWhitespace(c)
  {
    if '\U{2000}' <= c <= '\U{200A}' {
      assert c as int in {0x2000, 0x2001, 0x2002, 0x2003, 0x2004, 0x2005, 0x2006, 0x2007, 0x2008, 0x2009, 0x200A};
    }
  }

  /** No character of `s` belongs to `cs`. */
  predicate NoneIn(s: string, cs: set<char>)
  {
    forall k :: 0 <= k < |s| ==> s[k] !in cs
  }

  /** Neither end of `s` is whitespace: what `trim` leaves behind. */
  predicate IsTrimmed(s: string)
  {
    s == [] || (!IsWhitespace(s[0]) && !IsWhitespace(s[|s| - 1]))
  }

  /** `s.trimStart()`: drops the longest all-whitespace prefix. */
  function TrimStart(s: string): (r: string)
    ensures |r| <= |s| && r == s[|s| - |r|..]
    ensures forall k :: 0 <= k < |s| - |r| ==> IsWhitespace(s[k])
    ensures r == [] || !IsWhitespace(r[0])
    decreases |s|
  {
    if s != [] && IsWhitespace(s[0]) then
      assert forall k :: 1 <= k < |s| ==> s[k] == s[1..][k - 1];
      TrimStart(s[1..])
    else s
  }

  /** `s.trimEnd()`: drops the longest all-whitespace suffix. */
  function TrimEnd(s: string): (r: string)
    ensures |r| <= |s| && r == s[..|r|]
    ensures forall k :: |r| <= k < |s| ==> IsWhitespace(s[k])
    ensures r == [] || !IsWhitespace(r[|r| - 1])
    decreases |s|
  {
    if s != [] && IsWhitespace(s[|s| - 1]) then TrimEnd(s[..|s| - 1]) else s
  }

  /** `s.trim()`: the slice of `s` left once the whitespace at both ends is
      gone. `lead` is the length of the whitespace removed at the front. */
  function Trim(s: string): (r: string)
    ensures IsTrimmed(r)
    ensures var lead := |s| - |TrimStart(s)|;
      && lead + |r| <= |s|
      && r == s[lead..lead + |r|]
      && (forall k :: 0 <= k < lead ==> IsWhitespace(s[k]))
      && (forall k :: lead + |r| <= k < |s| ==> IsWhitespace(s[k]))
  {
    var t := TrimStart(s);
    var r := TrimEnd(t);
    SuffixPrefix(s, t, r);
    r
  }

  /** A prefix `r` of a suffix `t` of `s` is a slice of `s`, and what follows
      `r` in `t` is what follows it in `s`. */
  lemma SuffixPrefix(s: string, t: string, r: string)
    requires |t| <= |s| && t == s[|s| - |t|..]
    requires |r| <= |t| && r == t[..|r|]
    ensures var lead := |s| - |t|;
      && lead + |r| <= |s|
      && r == s[lead..lead + |r|]
      && (forall k :: lead + |r| <= k < |s| ==> s[k] == t[k - lead])
  {
    var lead := |s| - |t|;
    assert s[lead..][..|r|] == s[lead..lead + |r|];
  }

  /** Trimming a string that is already trimmed changes nothing, so `trim`
      is idempotent. */
  lemma TrimmedIsFixed(s: string)
    requires IsTrimmed(s)
    ensures Trim(s) == s
  {
  }

  lemma TrimIdempotent(s: string)
    ensures Trim(Trim(s)) == Trim(s)
  {
    TrimmedIsFixed(Trim(s));
  }

  /** `s.startsWith(p)`. */
  predicate StartsWith(s: string, p: string)
  {
    |p| <= |s| && s[..|p|] == p
  }

  /** A concatenation starts with its first part. */
  lemma PrefixStartsWith(a: string, b: string)
    ensures StartsWith(a + b, a)
  {
    assert (a + b)[..|a|] == a;
  }

  /** `s.includes(p)`, searched from the left one position at a time. */
  predicate Contains(s: string, p: string)
    decreases |s|
  {
    StartsWith(s, p) || (s != [] && Contains(s[1..], p))
  }

  /** `p` occurs in `s` starting at index `i`. */
  ghost predicate OccursAt(s: string, p: string, i: int)
  {
    0 <= i && i + |p| <= |s| && s[i..i + |p|] == p
  }

  /** An occurrence at any index is found by `Contains`. */
  lemma {:induction false} OccursContains(s: string, p: string, i: int)
    requires OccursAt(s, p, i)
    ensures Contains(s, p)
    decreases |s|
  {
    if i > 0 {
      assert s[1..][i - 1..i - 1 + |p|] == s[i..i + |p|];
      OccursContains(s[1..], p, i - 1);
    }
  }

  /** `Contains` only succeeds where there is an occurrence. */
  lemma {:induction false} ContainsOccurs(s: string, p: string) returns (i: nat)
    requires Contains(s, p)
    ensures OccursAt(s, p, i)
    decreases |s|
  {
    if StartsWith(s, p) {
      i := 0;
    } else {
      var j := ContainsOccurs(s[1..], p);
      assert s[1..][j..j + |p|] == s[j + 1..j + 1 + |p|];
      i := j + 1;
    }
  }

  /** `Contains` is exactly "occurs at some index". */
  lemma ContainsIffOccurs(s: string, p: string)
    ensures Contains(s, p) <==> exists i :: OccursAt(s, p, i)
  {
    if Contains(s, p) {
      var i := ContainsOccurs(s, p);
    }
    if i :| OccursAt(s, p, i) {
      OccursContains(s, p, i);
    }
  }

  /** A pattern longer than the text is never found. */
  lemma LongerNotContained(s: string, p: string)
    requires |p| > |s|
    ensures !Contains(s, p)
  {
    if Contains(s, p) {
      var i := ContainsOccurs(s, p);
    }
  }

  /** What occurs in a part occurs in the whole: `Contains` is transitive. */
  lemma ContainsTransitive(a: string, b: string, c: string)
    requires Contains(a, b) && Contains(b, c)
    ensures Contains(a, c)
  {
    var i := ContainsOccurs(a, b);
    var j := ContainsOccurs(b, c);
    forall k | 0 <= k < |c| ensures a[i + j + k] == c[k] {
      assert b[j + k] == c[k];
      assert a[i + (j + k)] == b[j + k];
    }
    assert a[i + j..i + j + |c|] == c;
    OccursContains(a, c, i + j);
  }

  /** Each half of a concatenation occurs in it. */
  lemma ContainsLeft(a: string, b: string)
    ensures Contains(a + b, a)
  {
    PrefixStartsWith(a, b);
  }

  lemma ContainsRight(a: string, b: string)
    ensures Contains(a + b, b)
  {
    assert (a + b)[|a|..|a| + |b|] == b;
    OccursContains(a + b, b, |a|);
  }

  /** The middle of a concatenation occurs in it. */
  lemma ContainsInfix(x: string, y: string, z: string)
    ensures Contains(x + y + z, y)
  {
    assert (x + y + z)[|x|..|x| + |y|] == y;
    OccursContains(x + y + z, y, |x|);
  }

  /** What occurs in a part occurs in a concatenation holding it. */
  lemma ContainsInLeft(x: string, y: string, p: string)
    requires Contains(x, p)
    ensures Contains(x + y, p)
  {
    ContainsLeft(x, y);
    ContainsTransitive(x + y, x, p);
  }

  lemma ContainsInRight(x: string, y: string, p: string)
    requires Contains(y, p)
    ensures Contains(x + y, p)
  {
    ContainsRight(x, y);
    ContainsTransitive(x + y, y, p);
  }

  /** The second and the fourth of five concatenated parts occur in the
      whole. */
  lemma ContainsSecondAndFourth(a: string, b: string, c: string, d: string, e: string)
    ensures Contains(a + b + c + d + e, b)
    ensures Contains(a + b + c + d + e, d)
  {
    assert a + b + c + d + e == a + b + (c + d + e);
    ContainsInfix(a, b, c + d + e);
    assert a + b + c + d + e == a + b + c + d + e;
    ContainsInfix(a + b + c, d, e);
  }

  /** The characters of `s` that belong to `delims`, in order: what `Split`
      removes. */
  function Separators(s: string, delims: set<char>): (seps: seq<char>)
    ensures |seps| <= |s|
    ensures forall k :: 0 <= k < |seps| ==> seps[k] in delims
    decreases |s|
  {
    if s == [] then []
    else (if s[0] in delims then [s[0]] else []) + Separators(s[1..], delims)
  }

  /** `s.split(/[delims]/)`: the pieces between consecutive delimiter
      characters, empty pieces included. */
  function Split(s: string, delims: set<char>): (parts: seq<string>)
    ensures |parts| == |Separators(s, delims)| + 1
    ensures forall k :: 0 <= k < |parts| ==> NoneIn(parts[k], delims) && |parts[k]| <= |s|
    decreases |s|
  {
    if s == [] then [""]
    else
      var rest := Split(s[1..], delims);
      if s[0] in delims then [""] + rest
      else [[s[0]] + rest[0]] + rest[1..]
  }

  /** Puts the pieces back together with the separators between them: the
      inverse of `Split`. */
  function Interleave(parts: seq<string>, seps: seq<char>): (s: string)
    requires |parts| == |seps| + 1
    decreases |seps|
  {
    if seps == [] then parts[0]
    else parts[0] + [seps[0]] + Interleave(parts[1..], seps[1..])
  }

  /** Splitting loses nothing but the delimiters: interleaving the pieces
      with the removed delimiters gives back the input. */
  lemma {:induction false} SplitThenInterleave(s: string, delims: set<char>)
    ensures Interleave(Split(s, delims), Separators(s, delims)) == s
    decreases |s|
  {
    if s != [] {
      var rest := Split(s[1..], delims);
      var seps := Separators(s[1..], delims);
      SplitThenInterleave(s[1..], delims);
      assert s == [s[0]] + s[1..];
      if s[0] !in delims && seps != [] {
        var parts := Split(s, delims);
        assert Separators(s, delims) == seps;
        assert parts[0] == [s[0]] + rest[0] && parts[1..] == rest[1..];
        calc {
          Interleave(parts, seps);
          parts[0] + [seps[0]] + Interleave(parts[1..], seps[1..]);
          [s[0]] + (rest[0] + [seps[0]] + Interleave(rest[1..], seps[1..]));
          [s[0]] + Interleave(rest, seps);
        }
      }
    }
  }

  /** A delimiter-free prefix is glued onto the first piece of what follows. */
  lemma {:induction false} SplitFreePrefix(a: string, x: string, delims: set<char>)
    requires NoneIn(a, delims)
    ensures var px := Split(x, delims);
      Split(a + x, delims) == [a + px[0]] + px[1..]
    decreases |a|
  {
    if a != [] {
      assert (a + x)[1..] == a[1..] + x;
      assert NoneIn(a[1..], delims) by {
        forall k | 0 <= k < |a[1..]| ensures a[1..][k] !in delims {
          assert a[1..][k] == a[k + 1];
        }
      }
      SplitFreePrefix(a[1..], x, delims);
      var px := Split(x, delims);
      var rest := Split((a + x)[1..], delims);
      assert (a + x)[0] == a[0] && a[0] !in delims;
      assert rest[0] == a[1..] + px[0] && rest[1..] == px[1..];
      assert Split(a + x, delims) == [[a[0]] + rest[0]] + rest[1..];
      assert [a[0]] + (a[1..] + px[0]) == a + px[0];
    } else {
      var px := Split(x, delims);
      assert a + x == x && a + px[0] == px[0];
      assert px == [px[0]] + px[1..];
    }
  }

  /** A string without delimiters splits into itself alone. */
  lemma SplitFree(a: string, delims: set<char>)
    requires NoneIn(a, delims)
    ensures Split(a, delims) == [a]
  {
    SplitFreePrefix(a, "", delims);
    assert a + "" == a;
  }

  /** The other direction of the round trip: delimiter-free pieces joined by
      delimiters split back into exactly those pieces. */
  lemma {:induction false} InterleaveThenSplit(parts: seq<string>, seps: seq<char>, delims: set<char>)
    requires |parts| == |seps| + 1
    requires forall k :: 0 <= k < |parts| ==> NoneIn(parts[k], delims)
    requires forall k :: 0 <= k < |seps| ==> seps[k] in delims
    ensures Split(Interleave(parts, seps), delims) == parts
    ensures Separators(Interleave(parts, seps), delims) == seps
    decreases |seps|
  {
    if seps == [] {
      SplitFree(parts[0], delims);
      SeparatorsFree(parts[0], delims);
    } else {
      var tail := Interleave(parts[1..], seps[1..]);
      InterleaveThenSplit(parts[1..], seps[1..], delims);
      var x := [seps[0]] + tail;
      assert Interleave(parts, seps) == parts[0] + x;
      assert x[1..] == tail;
      SplitFreePrefix(parts[0], x, delims);
      assert parts[0] + "" == parts[0];
      assert parts == [parts[0]] + parts[1..];
      SeparatorsAppend(parts[0], x, delims);
      SeparatorsFree(parts[0], delims);
    }
  }

  /** A delimiter-free string contributes no separators. */
  lemma {:induction false} SeparatorsFree(a: string, delims: set<char>)
    requires NoneIn(a, delims)
    ensures Separators(a, delims) == []
    decreases |a|
  {
    if a != [] {
      assert NoneIn(a[1..], delims) by {
        forall k | 0 <= k < |a[1..]| ensures a[1..][k] !in delims {
          assert a[1..][k] == a[k + 1];
        }
      }
      SeparatorsFree(a[1..], delims);
    }
  }

  /** The separators of a concatenation are those of its parts, in order. */
  lemma {:induction false} SeparatorsAppend(a: string, b: string, delims: set<char>)
    ensures Separators(a + b, delims) == Separators(a, delims) + Separators(b, delims)
    decreases |a|
  {
    if a != [] {
      assert (a + b)[1..] == a[1..] + b;
      assert (a + b)[0] == a[0];
      SeparatorsAppend(a[1..], b, delims);
      var h := if a[0] in delims then [a[0]] else [];
      assert Separators(a + b, delims) == h + Separators(a[1..] + b, delims);
      assert Separators(a, delims) == h + Separators(a[1..], delims);
    } else {
      assert a + b == b;
    }
  }

  /** Each piece occurs in the interleaved whole. */
  lemma {:induction false} PieceInInterleave(parts: seq<string>, seps: seq<char>, k: nat)
    requires |parts| == |seps| + 1 && k < |parts|
    ensures Contains(Interleave(parts, seps), parts[k])
    decreases |seps|
  {
    if seps == [] {
      ContainsInfix("", parts[0], "");
      assert "" + parts[0] + "" == parts[0];
    } else if k == 0 {
      ContainsInfix("", parts[0], [seps[0]] + Interleave(parts[1..], seps[1..]));
      assert "" + parts[0] + ([seps[0]] + Interleave(parts[1..], seps[1..])) == Interleave(parts, seps);
    } else {
      var tail := Interleave(parts[1..], seps[1..]);
      PieceInInterleave(parts[1..], seps[1..], k - 1);
      ContainsInfix(parts[0] + [seps[0]], tail, "");
      assert parts[0] + [seps[0]] + tail + "" == Interleave(parts, seps);
      ContainsTransitive(Interleave(parts, seps), tail, parts[k]);
    }
  }

  /** Every piece `Split` returns is a substring of its input. */
  lemma SplitPieceContained(s: string, delims: set<char>, k: nat)
    requires k < |Split(s, delims)|
    ensures Contains(s, Split(s, delims)[k])
  {
    PieceInInterleave(Split(s, delims), Separators(s, delims), k);
    SplitThenInterleave(s, delims);
  }

  /** Trimming adds no character: what `s` avoids, `Trim(s)` avoids. */
  lemma TrimKeepsNoneIn(s: string, cs: set<char>)
    requires NoneIn(s, cs)
    ensures NoneIn(Trim(s), cs)
  {
    var lead := |s| - |TrimStart(s)|;
    var r := Trim(s);
    assert r == s[lead..lead + |r|];
    forall c | 0 <= c < |r| ensures r[c] !in cs {
      assert r[c] == s[lead..lead + |r|][c] == s[lead + c];
    }
  }

  /** The result of `Trim` is a substring of its input. */
  lemma TrimContained(s: string)
    ensures Contains(s, Trim(s))
  {
    var lead := |s| - |TrimStart(s)|;
    OccursContains(s, Trim(s), lead);
  }
}
