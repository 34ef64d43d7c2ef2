/** The Python string and path operations the packaging helpers rely on,
    restricted to ASCII: the substring test `needle in haystack`,
    `str.replace`, `str.rstrip()`, `str.lstrip(c)`, `str.lower()`,
    `sep.join(parts)`, `str.split(sep)` and `os.path.join` (POSIX). */
module Text {

  /** `needle` occurs in `haystack` starting at position `i`. */
  predicate OccursAt(haystack: string, needle: string, i: int)
  {
    0 <= i <= |haystack| - |needle| && haystack[i..i + |needle|] == needle
  }

  /** Python's `needle in haystack` on strings. */
  predicate Contains(haystack: string, needle: string)
  {
    exists i :: 0 <= i <= |haystack| - |needle| && OccursAt(haystack, needle, i)
  }

  predicate IsPrefix(prefix: string, s: string)
  {
    |prefix| <= |s| && s[..|prefix|] == prefix
  }

  predicate EndsWith(s: string, suffix: string)
  {
    |suffix| <= |s| && s[|s| - |suffix|..] == suffix
  }

  lemma ContainsInside(a: string, needle: string, b: string)
    ensures Contains(a + needle + b, needle)
  {
    assert OccursAt(a + needle + b, needle, |a|);
  }

  /** Every occurrence splits the haystack around the needle. */
  lemma ContainsWitness(haystack: string, needle: string)
    requires Contains(haystack, needle)
    ensures exists i :: 0 <= i <= |haystack| - |needle| && haystack == haystack[..i] + needle + haystack[i + |needle|..]
  {
    var i :| 0 <= i <= |haystack| - |needle| && OccursAt(haystack, needle, i);
    assert haystack == haystack[..i] + needle + haystack[i + |needle|..];
  }

  /** `s.replace("+", "plus")`, the substitution every generated package
      name goes through. With a one-character pattern, Python's left-to-right
      scan without overlaps replaces each `+` on its own. */
  function SanitizePlus(s: string): string
  {
    if s == [] then []
    else (if s[0] == '+' then "plus" else [s[0]]) + SanitizePlus(s[1..])
  }

  /** No `+` survives the substitution. */
  lemma {:induction false} SanitizeNoPlus(s: string)
    ensures '+' !in SanitizePlus(s)
  {
    if s != [] {
      SanitizeNoPlus(s[1..]);
    }
  }

  /** The substitution works character by character, so it distributes over concatenation. */
  lemma {:induction false} SanitizeConcat(a: string, b: string)
    ensures SanitizePlus(a + b) == SanitizePlus(a) + SanitizePlus(b)
  {
    if a == [] {
      assert a + b == b;
    } else {
      var ab := a + b;
      assert ab[0] == a[0] && ab[1..] == a[1..] + b;
      SanitizeConcat(a[1..], b);
    }
  }

  /** The substitution introduces no character other than those of `plus`. */
  lemma {:induction false} SanitizeChars(s: string)
    ensures forall c :: c in SanitizePlus(s) ==> c in s || c in "plus"
  {
    if s != [] {
      SanitizeChars(s[1..]);
    }
  }

  /** Text without `+` around a part passes through the substitution unchanged. */
  lemma SanitizeKeeps(before: string, s: string, after: string)
    requires '+' !in before && '+' !in after
    ensures SanitizePlus(before + s + after) == before + SanitizePlus(s) + after
  {
    SanitizeConcat(before + s, after);
    SanitizeConcat(before, s);
    SanitizeFixedPoint(before);
    SanitizeFixedPoint(after);
  }

  /** Two parts joined by, and followed by, text without `+` are substituted separately. */
  lemma SanitizePair(x: string, sep: string, y: string, after: string)
    requires '+' !in sep && '+' !in after
    ensures SanitizePlus(x + sep + y + after) == SanitizePlus(x) + sep + SanitizePlus(y) + after
  {
    SanitizeConcat(x + sep + y, after);
    SanitizeConcat(x + sep, y);
    SanitizeConcat(x, sep);
    SanitizeFixedPoint(sep);
    SanitizeFixedPoint(after);
  }

  /** A string is left unchanged exactly when it holds no `+`. */
  lemma {:induction false} SanitizeFixedPoint(s: string)
    ensures SanitizePlus(s) == s <==> '+' !in s
  {
    SanitizeNoPlus(s);
    if s != [] && '+' !in s {
      SanitizeFixedPoint(s[1..]);
      assert s == [s[0]] + s[1..];
    }
  }

  lemma SanitizeIdempotent(s: string)
    ensures SanitizePlus(SanitizePlus(s)) == SanitizePlus(s)
  {
    SanitizeNoPlus(s);
    SanitizeFixedPoint(SanitizePlus(s));
  }

  /** The characters `str.isspace` accepts among ASCII: space, tab, line feed,
      vertical tab, form feed, carriage return and the four separators 0x1c-0x1f. */
  predicate IsSpace(c: char)
  {
    c == ' ' || '\t' <= c <= '\r' || '\U{1C}' <= c <= '\U{1F}'
  }

  /** Python's `s.rstrip()`: trailing white space removed. */
  function RStrip(s: string): (r: string)
    ensures IsPrefix(r, s)
    ensures r == [] || !IsSpace(r[|r| - 1])
    ensures forall k :: |r| <= k < |s| ==> IsSpace(s[k])
  {
    if s != [] && IsSpace(s[|s| - 1]) then RStrip(s[..|s| - 1]) else s
  }

  /** Python's `s.lstrip(c)` for a single character `c`. */
  function LStrip(s: string, c: char): (r: string)
    ensures EndsWith(s, r)
    ensures r == [] || r[0] != c
    ensures forall k :: 0 <= k < |s| - |r| ==> s[k] == c
  {
    if s != [] && s[0] == c then LStrip(s[1..], c) else s
  }

  function LowerChar(c: char): char
  {
    if 'A' <= c <= 'Z' then (c as int + 32) as char else c
  }

  /** Python's `s.lower()` on ASCII letters: upper-case letters become their
      lower-case forms and every other character is kept. */
  function ToLower(s: string): (r: string)
    ensures |r| == |s|
    ensures forall k :: 0 <= k < |s| ==> !('A' <= r[k] <= 'Z')
    ensures forall k :: 0 <= k < |s| ==> (r[k] == s[k] <==> !('A' <= s[k] <= 'Z'))
    ensures forall k :: 0 <= k < |s| && 'A' <= s[k] <= 'Z' ==> r[k] as int == s[k] as int + 32
  {
    seq(|s|, k requires 0 <= k < |s| => LowerChar(s[k]))
  }

  /** What a Python pattern ending in `$` (without MULTILINE) is matched
      against: `$` also matches just before one final newline. */
  function StripFinalNewline(s: string): (r: string)
    ensures IsPrefix(r, s)
    ensures r != s <==> s != [] && s[|s| - 1] == '\n'
    ensures r != s ==> s == r + "\n"
  {
    if s != [] && s[|s| - 1] == '\n' then s[..|s| - 1] else s
  }

  /** Python's `sep.join(parts)` for a one-character separator. */
  function Join(parts: seq<string>, sep: char): string
  {
    if parts == [] then ""
    else if |parts| == 1 then parts[0]
    else parts[0] + [sep] + Join(parts[1..], sep)
  }

  /** Position of the first `c` in `s`, or `|s|` when there is none. */
  function IndexOf(s: string, c: char): (i: nat)
    ensures i <= |s|
    ensures i < |s| ==> s[i] == c
    ensures forall k :: 0 <= k < i ==> s[k] != c
  {
    if s == [] || s[0] == c then 0 else 1 + IndexOf(s[1..], c)
  }

  /** Python's `s.split(sep)` for a one-character separator. */
  function Split(s: string, sep: char): (r: seq<string>)
    ensures r != []
    decreases |s|
  {
    var i := IndexOf(s, sep);
    if i == |s| then [s] else [s[..i]] + Split(s[i + 1..], sep)
  }

  lemma IndexOfAbsent(s: string, c: char)
    requires c !in s
    ensures IndexOf(s, c) == |s|
  {
  }

  lemma IndexOfFirstSeparator(first: string, c: char, rest: string)
    requires c !in first
    ensures IndexOf(first + [c] + rest, c) == |first|
  {
    var s := first + [c] + rest;
    assert s[|first|] == c;
    assert forall k :: 0 <= k < |first| ==> s[k] == first[k];
  }

  /** Splitting a joined list gives the list back when no part holds the separator. */
  lemma {:induction false} SplitJoin(parts: seq<string>, sep: char)
    requires parts != []
    requires forall k :: 0 <= k < |parts| ==> sep !in parts[k]
    ensures Split(Join(parts, sep), sep) == parts
  {
    var first := parts[0];
    if |parts| == 1 {
      IndexOfAbsent(first, sep);
    } else {
      var rest := Join(parts[1..], sep);
      var s := first + [sep] + rest;
      assert Join(parts, sep) == s;
      IndexOfFirstSeparator(first, sep, rest);
      assert s[..|first|] == first;
      assert s[|first| + 1..] == rest;
      assert Split(s, sep) == [first] + Split(rest, sep);
      SplitJoin(parts[1..], sep);
    }
  }

  /** Python's `os.path.join(a, b)` on POSIX: an absolute `b` discards `a`;
      otherwise a `/` is inserted unless `a` is empty or already ends in one. */
  function PathJoin(a: string, b: string): (r: string)
    ensures EndsWith(r, b)
    ensures !IsPrefix("/", b) ==> IsPrefix(a, r)
  {
    if IsPrefix("/", b) then b
    else if a == [] || EndsWith(a, "/") then a + b
    else a + "/" + b
  }

  /** Joining a relative path keeps the first path as a prefix. */
  lemma PathJoinRelative(a: string, b: string)
    requires b == [] || b[0] != '/'
    ensures IsPrefix(a, PathJoin(a, b)) && EndsWith(PathJoin(a, b), b)
    ensures a != [] && !EndsWith(a, "/") ==> PathJoin(a, b) == a + "/" + b
  {
    assert !IsPrefix("/", b) by {
      if b != [] {
        assert b[..1][0] == b[0];
      }
    }
  }

  lemma AppendAssoc<T>(a: seq<T>, b: seq<T>, c: seq<T>)
    ensures a + b + c == a + (b + c)
  {
  }

  /** A non-empty sequence is its last element appended to the rest. */
  lemma SnocSplit<T>(s: seq<T>)
    requires s != []
    ensures s == s[..|s| - 1] + [s[|s| - 1]]
    ensures multiset(s) == multiset(s[..|s| - 1]) + multiset{s[|s| - 1]}
  {
    assert s == s[..|s| - 1] + [s[|s| - 1]];
  }

  /** Dropping the last element of `a + b` drops it from `b`. */
  lemma SnocConcat<T>(a: seq<T>, b: seq<T>)
    requires b != []
    ensures (a + b)[..|a + b| - 1] == a + b[..|b| - 1] && (a + b)[|a + b| - 1] == b[|b| - 1]
  {
    assert (a + b)[..|a + b| - 1] == a + b[..|b| - 1];
  }

  lemma EndsWithTrans(s: string, t: string, u: string)
    requires EndsWith(s, t) && EndsWith(t, u)
    ensures EndsWith(s, u)
  {
    assert s[|s| - |u|..] == s[|s| - |t|..][|t| - |u|..];
  }

  lemma Affixes(a: string, b: string)
    ensures IsPrefix(a, a + b) && EndsWith(a + b, b)
  {
    assert (a + b)[..|a|] == a;
    assert (a + b)[|a|..] == b;
  }
}
