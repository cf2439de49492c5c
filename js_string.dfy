/**
 * The parts of JavaScript's String API that the header parser relies on:
 * `trim`, `split` with a one-character separator, and `includes` (which is
 * plain membership, `c in s`). A string is a sequence of characters.
 */
module JsString {

  /** The WhiteSpace and LineTerminator code points of ECMA-262 (sections
      12.2 and 12.3): what `String.prototype.trim` strips and what the
      regular-expression class `\s` matches. */
  predicate IsSpace(c: char) {
    c in SpaceChars || '\U{2000}' <= c <= '\U{200A}'
  }

  const SpaceChars: set<char> := {
    '\t', '\n', '\U{B}', '\U{C}', '\r', ' ', '\U{A0}', '\U{1680}',
    '\U{2028}', '\U{2029}', '\U{202F}', '\U{205F}', '\U{3000}', '\U{FEFF}'
  }

  predicate AllSpace(s: string) {
    forall i :: 0 <= i < |s| ==> IsSpace(s[i])
  }

  predicate IsDigit(c: char) {
    '0' <= c <= '9'
  }

  /** Number of decimal digits in `s`. */
  function CountDigits(s: string): nat {
    if s == [] then 0 else (if IsDigit(s[0]) then 1 else 0) + CountDigits(s[1..])
  }

  /** The first index at or after `i` that does not hold white space. */
  function SkipSpaces(s: string, i: nat): (k: nat)
    requires i <= |s|
    ensures i <= k <= |s| && (k == |s| || !IsSpace(s[k]))
    ensures forall j :: i <= j < k ==> IsSpace(s[j])
    decreases |s| - i
  {
    if i < |s| && IsSpace(s[i]) then SkipSpaces(s, i + 1) else i
  }

  /** The least index `k` in `[lo, j]` such that `s[k..j]` is all white space. */
  function SkipSpacesBack(s: string, lo: nat, j: nat): (k: nat)
    requires lo <= j <= |s|
    ensures lo <= k <= j && (k == lo || !IsSpace(s[k - 1]))
    ensures forall m :: k <= m < j ==> IsSpace(s[m])
    decreases j - lo
  {
    if lo < j && IsSpace(s[j - 1]) then SkipSpacesBack(s, lo, j - 1) else j
  }

  /** Where the text that `trim` keeps starts and ends. */
  function TrimStart(s: string): nat {
    SkipSpaces(s, 0)
  }

  function TrimEnd(s: string): (e: nat)
    ensures TrimStart(s) <= e <= |s|
  {
    SkipSpacesBack(s, TrimStart(s), |s|)
  }

  /** `String.prototype.trim`: the slice of `s` that is left once the white
      space at both ends is dropped. Only white space lies around it, it
      neither starts nor ends with white space, and it is empty only when
      `s` is all white space. */
  function Trim(s: string): (r: string)
    ensures r == s[TrimStart(s)..TrimEnd(s)]
    ensures forall i :: 0 <= i < TrimStart(s) ==> IsSpace(s[i])
    ensures forall i :: TrimEnd(s) <= i < |s| ==> IsSpace(s[i])
    ensures r == [] || (!IsSpace(r[0]) && !IsSpace(r[|r| - 1]))
  {
    s[TrimStart(s)..TrimEnd(s)]
  }

  /** The characters before the first `sep` in `s` (all of `s` when there
      is none): the first piece of `s.split(sep)`. */
  function Before(s: string, sep: char): (r: string)
    ensures r <= s && sep !in r
    ensures |r| < |s| ==> s[|r|] == sep
  {
    if s == [] || s[0] == sep then [] else [s[0]] + Before(s[1..], sep)
  }

  /** `s.split(sep)` for a one-character separator: the pieces between
      consecutive occurrences of `sep`, left to right. */
  function Split(s: string, sep: char): (pieces: seq<string>)
    ensures |pieces| >= 1 && pieces[0] == Before(s, sep)
    ensures |pieces| == 1 <==> sep !in s
    ensures forall i :: 0 <= i < |pieces| ==> sep !in pieces[i]
    decreases |s|
  {
    var head := Before(s, sep);
    if |head| == |s| then
      assert head == s;
      [s]
    else
      assert s[|head|] == sep;
      [head] + Split(s[|head| + 1..], sep)
  }

  /** `pieces.join(sep)`: the partner of `Split`. */
  function Join(pieces: seq<string>, sep: char): string
    requires |pieces| >= 1
  {
    if |pieces| == 1 then pieces[0] else pieces[0] + [sep] + Join(pieces[1..], sep)
  }

  /** Joining the pieces of a split gives back the string. */
  lemma {:induction false} JoinSplit(s: string, sep: char)
    ensures Join(Split(s, sep), sep) == s
    decreases |s|
  {
    var head := Before(s, sep);
    if |head| < |s| {
      var rest := s[|head| + 1..];
      SplitStep(s, sep);
      JoinSplit(rest, sep);
      JoinStep(head, Split(rest, sep), sep);
      BeforeSeparator(s, sep);
    }
  }

  lemma BeforeSeparator(s: string, sep: char)
    requires |Before(s, sep)| < |s|
    ensures s == Before(s, sep) + [sep] + s[|Before(s, sep)| + 1..]
  {
    var k := |Before(s, sep)|;
    assert s == s[..k] + [s[k]] + s[k + 1..];
  }

  lemma SplitStep(s: string, sep: char)
    requires sep in s
    ensures Split(s, sep) == [Before(s, sep)] + Split(s[|Before(s, sep)| + 1..], sep)
  {
  }

  lemma JoinStep(head: string, tail: seq<string>, sep: char)
    requires |tail| >= 1
    ensures Join([head] + tail, sep) == head + [sep] + Join(tail, sep)
  {
    assert ([head] + tail)[1..] == tail;
  }

  /** Splitting a join of separator-free pieces gives back the pieces. */
  lemma {:induction false} SplitJoin(pieces: seq<string>, sep: char)
    requires |pieces| >= 1
    requires forall i :: 0 <= i < |pieces| ==> sep !in pieces[i]
    ensures Split(Join(pieces, sep), sep) == pieces
    decreases |pieces|
  {
    if |pieces| == 1 {
      assert Join(pieces, sep) == pieces[0];
    } else {
      var rest := Join(pieces[1..], sep);
      JoinStep(pieces[0], pieces[1..], sep);
      assert pieces == [pieces[0]] + pieces[1..];
      var s := pieces[0] + [sep] + rest;
      BeforeOfPrefix(pieces[0], rest, sep);
      assert s[|pieces[0]|] == sep;
      SplitStep(s, sep);
      assert s[|pieces[0]| + 1..] == rest;
      SplitJoin(pieces[1..], sep);
    }
  }

  lemma {:induction false} BeforeOfPrefix(head: string, rest: string, sep: char)
    requires sep !in head
    ensures Before(head + [sep] + rest, sep) == head
    decreases |head|
  {
    var s := head + [sep] + rest;
    if head == [] {
      assert s[0] == sep;
    } else {
      assert s[0] == head[0] && s[0] != sep;
      assert s[1..] == head[1..] + [sep] + rest;
      BeforeOfPrefix(head[1..], rest, sep);
      assert head == [head[0]] + head[1..];
    }
  }

  lemma {:induction false} CountDigitsAppend(a: string, b: string)
    ensures CountDigits(a + b) == CountDigits(a) + CountDigits(b)
    decreases |a|
  {
    if a == [] {
      assert a + b == b;
    } else {
      assert (a + b)[0] == a[0];
      assert (a + b)[1..] == a[1..] + b;
      CountDigitsAppend(a[1..], b);
    }
  }

  lemma {:induction false} SpacesHaveNoDigits(s: string)
    requires AllSpace(s)
    ensures CountDigits(s) == 0
    decreases |s|
  {
    if s != [] {
      SpacesHaveNoDigits(s[1..]);
    }
  }

  /** Trimming keeps every digit and never adds a character. */
  lemma TrimKeepsDigits(s: string)
    ensures CountDigits(Trim(s)) == CountDigits(s)
    ensures forall c :: c in Trim(s) ==> c in s
  {
    var a, b := TrimStart(s), TrimEnd(s);
    var pre, post := s[..a], s[b..];
    assert s == pre + Trim(s) + post;
    CountDigitsAppend(pre + Trim(s), post);
    CountDigitsAppend(pre, Trim(s));
    SpacesHaveNoDigits(pre);
    SpacesHaveNoDigits(post);
  }

  /** The trim of a string found at index `a` of `s` is found at index
      `a + TrimStart(m)` of `s`. */
  lemma TrimInside(m: string, s: string, a: nat)
    requires a <= |s| && m <= s[a..]
    ensures a + TrimStart(m) <= |s| && Trim(m) <= s[a + TrimStart(m)..]
  {
    var i := TrimStart(m);
    forall k | 0 <= k < |Trim(m)| ensures Trim(m)[k] == s[a + i..][k] {
      assert Trim(m)[k] == m[i + k] == s[a..][i + k];
    }
  }

  /** Trimming yields the empty string exactly when `s` is all white space. */
  lemma TrimEmpty(s: string)
    ensures Trim(s) == [] <==> AllSpace(s)
  {
    if AllSpace(s) {
      assert TrimStart(s) == |s|;
    }
  }

  /** A string that does not end in white space keeps its last character. */
  lemma TrimKeepsLast(s: string)
    requires s != [] && !IsSpace(s[|s| - 1])
    ensures Trim(s) != [] && Trim(s)[|Trim(s)| - 1] == s[|s| - 1]
  {
  }

  /** A string without white space is its own trim. */
  lemma TrimWithoutSpace(s: string)
    requires forall i :: 0 <= i < |s| ==> !IsSpace(s[i])
    ensures Trim(s) == s
  {
  }
}
