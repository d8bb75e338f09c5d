/** Strings, character classes and the JavaScript string built-ins that the
    formula pipeline of script.js relies on: `includes`, `trim`, `split`,
    `join` and `replace` with a string pattern.  A JavaScript string is
    modelled as the sequence of its characters; every symbol the pipeline
    handles lies in the Basic Multilingual Plane, where a character and a
    UTF-16 code unit coincide. */
module Text {

  type Str = seq<char>

  datatype Option<T> = None | Some(value: T)

  // The connective symbols of the internal notation.
  const FORALL: char := '∀'
  const EXISTS: char := '∃'
  const AND: char := '∧'
  const OR: char := '∨'
  const NOT: char := '¬'
  const IMPLIES: char := '→'
  const IFF: char := '↔'

  /** JavaScript's WhiteSpace and LineTerminator characters: what `\s` matches
      and what `trim` removes. */
  predicate IsSpace(c: char) {
    c == ' ' || c == '\t' || c == '\n' || c == '\r' || c == '\U{000B}' || c == '\U{000C}'
    || c == '\U{00A0}' || c == '\U{1680}' || ('\U{2000}' <= c <= '\U{200A}')
    || c == '\U{2028}' || c == '\U{2029}' || c == '\U{202F}' || c == '\U{205F}'
    || c == '\U{3000}' || c == '\U{FEFF}'
  }

  /** The regular-expression class `\w`, that is `[A-Za-z0-9_]`. */
  predicate IsWord(c: char) {
    ('A' <= c <= 'Z') || ('a' <= c <= 'z') || ('0' <= c <= '9') || c == '_'
  }

  /** The character classes the pipeline's regular expressions use:
      `\s`, `\w` and negated classes such as `[^↔()]`. */
  datatype CharClass = Space | Word | NoneOf(excluded: set<char>)

  predicate InClass(c: char, cls: CharClass) {
    match cls
    case Space => IsSpace(c)
    case Word => IsWord(c)
    case NoneOf(excluded) => c !in excluded
  }

  /** End of the longest run of `cls` characters that starts at `i`: where a
      greedy `cls*` starting at `i` stops. */
  function RunEnd(s: Str, i: nat, cls: CharClass): (j: nat)
    requires i <= |s|
    ensures i <= j <= |s|
    ensures forall k :: i <= k < j ==> InClass(s[k], cls)
    ensures j == |s| || !InClass(s[j], cls)
    decreases |s| - i
  {
    if i == |s| || !InClass(s[i], cls) then i else RunEnd(s, i + 1, cls)
  }

  /** Number of occurrences of `c` in `s`. */
  function Count(s: Str, c: char): (n: nat)
    ensures n <= |s|
    ensures n == 0 <==> c !in s
  {
    if |s| == 0 then 0 else (if s[0] == c then 1 else 0) + Count(s[1..], c)
  }

  lemma {:induction false} CountConcat(a: Str, b: Str, c: char)
    ensures Count(a + b, c) == Count(a, c) + Count(b, c)
  {
    if |a| == 0 {
      assert a + b == b;
    } else {
      assert (a + b)[1..] == a[1..] + b;
      CountConcat(a[1..], b, c);
    }
  }

  /** `s.includes(pat)` for a pattern of any length. */
  predicate OccursAt(s: Str, pat: Str, i: nat) {
    i + |pat| <= |s| && s[i..i + |pat|] == pat
  }

  predicate Contains(s: Str, pat: Str) {
    exists i :: 0 <= i <= |s| && OccursAt(s, pat, i)
  }

  /** `s.indexOf(pat, from)`: the leftmost occurrence at or after `from`. */
  function IndexOf(s: Str, pat: Str, from: nat): (r: Option<nat>)
    requires from <= |s|
    ensures r.Some? ==> from <= r.value <= |s| && OccursAt(s, pat, r.value)
    ensures r.Some? ==> forall k :: from <= k < r.value ==> !OccursAt(s, pat, k)
    ensures r.None? ==> forall k :: from <= k <= |s| ==> !OccursAt(s, pat, k)
    decreases |s| - from
  {
    if OccursAt(s, pat, from) then Some(from)
    else if from == |s| then None
    else IndexOf(s, pat, from + 1)
  }

  /** `s.replace(pat, rep)` with a string pattern: only the first occurrence
      of `pat` is replaced (the replacement strings used here hold no `$`). */
  function ReplaceFirst(s: Str, pat: Str, rep: Str): (r: Str)
    ensures !Contains(s, pat) ==> r == s
    ensures Contains(s, pat) ==> |r| == |s| - |pat| + |rep|
    ensures Contains(s, pat) ==>
      exists p :: 0 <= p <= |s| - |pat| && OccursAt(s, pat, p)
        && (forall q :: 0 <= q < p ==> !OccursAt(s, pat, q))
        && r == s[..p] + rep + s[p + |pat|..]
  {
    match IndexOf(s, pat, 0)
    case None => s
    case Some(p) => s[..p] + rep + s[p + |pat|..]
  }

  /** Number of white-space characters at the head of `s`. */
  function LeadingSpaces(s: Str): (n: nat)
    ensures n <= |s|
    ensures forall k :: 0 <= k < n ==> IsSpace(s[k])
    ensures n == |s| || !IsSpace(s[n])
  {
    RunEnd(s, 0, Space)
  }

  /** Index where the white space at the tail of `s` starts. */
  function TrailingStart(s: Str): (m: nat)
    ensures m <= |s|
    ensures forall k :: m <= k < |s| ==> IsSpace(s[k])
    ensures m == 0 || !IsSpace(s[m - 1])
  {
    if |s| == 0 || !IsSpace(s[|s| - 1]) then |s| else TrailingStart(s[..|s| - 1])
  }

  /** `s.trim()`: the slice of `s` left after removing white space at both ends. */
  function Trim(s: Str): (r: Str)
    ensures r == [] || (!IsSpace(r[0]) && !IsSpace(r[|r| - 1]))
    ensures LeadingSpaces(s) + |r| <= |s| && r == s[LeadingSpaces(s)..LeadingSpaces(s) + |r|]
    ensures forall k :: LeadingSpaces(s) + |r| <= k < |s| ==> IsSpace(s[k])
    ensures forall c :: c in r ==> c in s
  {
    var i := LeadingSpaces(s);
    var t := s[i..];
    var m := TrailingStart(t);
    assert t[..m] == s[i..i + m];
    t[..m]
  }

  /** `s.split(sep)` for a one-character separator: every occurrence of `sep`
      splits, so there is always one part more than there are separators. */
  function Split(s: Str, sep: char): (parts: seq<Str>)
    ensures |parts| == Count(s, sep) + 1
    ensures forall k :: 0 <= k < |parts| ==> sep !in parts[k]
    ensures forall k :: 0 <= k < |parts| ==> forall x :: x in parts[k] ==> x in s
    decreases |s|
  {
    if |s| == 0 then [[]]
    else
      var rest := Split(s[1..], sep);
      if s[0] == sep then [[]] + rest
      else [[s[0]] + rest[0]] + rest[1..]
  }

  /** `parts.join(sep)`. */
  function Join(parts: seq<Str>, sep: Str): Str {
    if |parts| == 0 then []
    else if |parts| == 1 then parts[0]
    else parts[0] + sep + Join(parts[1..], sep)
  }

  /** Splitting and joining again with the separator gives back the string. */
  lemma {:induction false} JoinSplit(s: Str, sep: char)
    ensures Join(Split(s, sep), [sep]) == s
  {
    if |s| > 0 {
      JoinSplit(s[1..], sep);
      var rest := Split(s[1..], sep);
      if s[0] == sep {
        assert Split(s, sep) == [[]] + rest;
        JoinEmptyFirst(rest, [sep]);
      } else {
        assert Split(s, sep) == [[s[0]] + rest[0]] + rest[1..];
        JoinPrepend(s[0], rest, [sep]);
      }
      assert s == [s[0]] + s[1..];
    }
  }

  /** Joining after an empty first part starts with the separator. */
  lemma JoinEmptyFirst(parts: seq<Str>, sep: Str)
    requires |parts| > 0
    ensures Join([[]] + parts, sep) == sep + Join(parts, sep)
  {
    assert ([[]] + parts)[1..] == parts;
  }

  /** Joining after a character is put in front of the first part. */
  lemma JoinPrepend(x: char, parts: seq<Str>, sep: Str)
    requires |parts| > 0
    ensures Join([[x] + parts[0]] + parts[1..], sep) == [x] + Join(parts, sep)
  {
    var q := [[x] + parts[0]] + parts[1..];
    if |parts| > 1 {
      assert q[1..] == parts[1..];
      assert Join(q, sep) == [x] + parts[0] + sep + Join(parts[1..], sep);
    }
  }
}
