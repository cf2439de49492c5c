/**
 * The four regular expressions that `extractPersonalInfo` applies to the
 * header text, each written out as the scan an ECMA-262 matcher (section
 * 22.2) performs for it. `String.prototype.match` returns the match that
 * starts leftmost; at that start it is the first success in backtracking
 * order.
 */
module HeaderPatterns {
  import opened Wrappers
  import opened JsString

  // ----- name: /^([^\n|]+)/ -----------------------------------------------

  predicate IsNameChar(c: char) {
    c != '\n' && c != '|'
  }

  /** The end of the run of name characters that starts at `i`. */
  function NameEnd(s: string, i: nat): (k: nat)
    requires i <= |s|
    ensures i <= k <= |s| && (k == |s| || !IsNameChar(s[k]))
    ensures forall j :: i <= j < k ==> IsNameChar(s[j])
    decreases |s| - i
  {
    if i < |s| && IsNameChar(s[i]) then NameEnd(s, i + 1) else i
  }

  /** Without the m flag `^` matches at index 0 only, and the greedy `+`
      takes the whole run: the match is the longest prefix free of line
      feeds and bars, and there is none when that prefix is empty. */
  function MatchName(s: string): (m: Option<string>)
    ensures m.None? <==> s == [] || !IsNameChar(s[0])
    ensures m.Some? ==> 0 < |m.value| <= |s| && m.value == s[..|m.value|]
    ensures m.Some? ==> forall i :: 0 <= i < |m.value| ==> IsNameChar(s[i])
    ensures m.Some? ==> |m.value| == |s| || !IsNameChar(s[|m.value|])
  {
    var k := NameEnd(s, 0);
    if k == 0 then None else Some(s[..k])
  }

  // ----- email: /([a-zA-Z0-9._-]+@[a-zA-Z0-9._-]+\.[a-zA-Z0-9._-]+)/gi -----

  /** The class `[a-zA-Z0-9._-]`. The i flag adds nothing to it: both cases
      are listed, and outside Unicode mode case folding never maps a
      non-ASCII character into ASCII. */
  predicate IsEmailChar(c: char) {
    ('a' <= c <= 'z') || ('A' <= c <= 'Z') || ('0' <= c <= '9') || c == '.' || c == '_' || c == '-'
  }

  /** The end of the run of email characters that starts at `i`. */
  function EmailRunEnd(s: string, i: nat): (k: nat)
    requires i <= |s|
    ensures i <= k <= |s| && (k == |s| || !IsEmailChar(s[k]))
    ensures forall j :: i <= j < k ==> IsEmailChar(s[j])
    decreases |s| - i
  {
    if i < |s| && IsEmailChar(s[i]) then EmailRunEnd(s, i + 1) else i
  }

  /** Strings in the language of `C+@C+\.C+`, C the class above: one `@`
      with at least one character before it, and after it a dot with at
      least one class character on each side. */
  ghost predicate EmailShaped(m: string) {
    exists at, dot :: 0 < at && at + 1 < dot < |m| - 1 && m[at] == '@' && m[dot] == '.'
                      && (forall i :: 0 <= i < |m| && i != at ==> IsEmailChar(m[i]))
  }

  /** Where the match starting at `p` ends, if there is one. The first `C+`
      can only stop just before the `@` (no class character is an `@`);
      the second and third share the run after it, and the first success
      takes the last inner dot and lets the third `C+` run to the end of
      that run. */
  function EmailEndAt(s: string, p: nat): Option<nat>
    requires p <= |s|
  {
    if p < |s| && IsEmailChar(s[p]) then
      var at := EmailRunEnd(s, p);
      if at < |s| && s[at] == '@' then
        var e := EmailRunEnd(s, at + 1);
        if exists k | at + 1 < k < e - 1 :: s[k] == '.' then Some(e) else None
      else None
    else None
  }

  /** A match found at `p` is email-shaped and cannot be extended. */
  lemma EmailEndAtSound(s: string, p: nat)
    requires p <= |s| && EmailEndAt(s, p).Some?
    ensures var e := EmailEndAt(s, p).value;
      p < e <= |s| && EmailShaped(s[p..e]) && (e == |s| || !IsEmailChar(s[e]))
  {
    var at := EmailRunEnd(s, p);
    var e := EmailRunEnd(s, at + 1);
    var k :| at + 1 < k < e - 1 && s[k] == '.';
    var m := s[p..e];
    assert m[at - p] == '@' && m[k - p] == '.';
    assert forall i :: 0 <= i < |m| && i != at - p ==> IsEmailChar(m[i]) by {
      forall i | 0 <= i < |m| && i != at - p ensures IsEmailChar(m[i]) {
        assert m[i] == s[p + i];
      }
    }
  }

  /** Every email-shaped substring starting at `p` is found by the scan at
      `p`, and ends no later than the match the scan reports. */
  lemma EmailEndAtComplete(s: string, p: nat, e: nat)
    requires p <= e <= |s| && EmailShaped(s[p..e])
    ensures EmailEndAt(s, p).Some? && e <= EmailEndAt(s, p).value
  {
    var m := s[p..e];
    var at, dot :| 0 < at && at + 1 < dot < |m| - 1 && m[at] == '@' && m[dot] == '.'
                   && (forall i :: 0 <= i < |m| && i != at ==> IsEmailChar(m[i]));
    assert s[p] == m[0];
    forall j | p <= j < p + at ensures IsEmailChar(s[j]) {
      assert s[j] == m[j - p];
    }
    assert s[p + at] == m[at];
    var a := EmailRunEnd(s, p);
    assert a == p + at;
    forall j | p + at < j < e ensures IsEmailChar(s[j]) {
      assert s[j] == m[j - p];
    }
    var end := EmailRunEnd(s, a + 1);
    assert e <= end;
    assert s[p + dot] == m[dot];
    assert a + 1 < p + dot < end - 1;
  }

  /** The leftmost start, at or after `from`, where the scan succeeds. */
  function FindEmail(s: string, from: nat): (r: Option<(nat, nat)>)
    requires from <= |s|
    ensures r.Some? ==> from <= r.value.0 <= |s| && EmailEndAt(s, r.value.0) == Some(r.value.1)
    ensures r.Some? ==> forall p :: from <= p < r.value.0 ==> EmailEndAt(s, p).None?
    ensures r.None? ==> forall p :: from <= p <= |s| ==> EmailEndAt(s, p).None?
    decreases |s| - from
  {
    match EmailEndAt(s, from)
    case Some(e) => Some((from, e))
    case None => if from == |s| then None else FindEmail(s, from + 1)
  }

  /** `emailMatch[0]`: with the g flag `match` lists every match, and the
      first entry is the leftmost one. */
  function MatchEmail(s: string): Option<string> {
    match FindEmail(s, 0)
    case None => None
    case Some((p, e)) => EmailEndAtSound(s, p); Some(s[p..e])
  }

  /** The email match is the leftmost email-shaped substring, and the
      longest one at that start; there is no match exactly when no
      substring is email-shaped. */
  lemma EmailMatchIsLeftmostLongest(s: string)
    ensures FindEmail(s, 0).None? <==> forall p, e :: 0 <= p <= e <= |s| ==> !EmailShaped(s[p..e])
    ensures FindEmail(s, 0).Some? ==>
      var (p, e) := FindEmail(s, 0).value;
      && p < e <= |s| && EmailShaped(s[p..e])
      && (forall p', e' :: 0 <= p' < p && p' <= e' <= |s| ==> !EmailShaped(s[p'..e']))
      && (forall e' :: p <= e' <= |s| && EmailShaped(s[p..e']) ==> e' <= e)
  {
    var r := FindEmail(s, 0);
    forall p, e | 0 <= p <= e <= |s| && EmailShaped(s[p..e])
      ensures EmailEndAt(s, p).Some? && e <= EmailEndAt(s, p).value
    {
      EmailEndAtComplete(s, p, e);
    }
    if r.Some? {
      EmailEndAtSound(s, r.value.0);
    }
  }

  /** What an email match looks like: exactly one `@`, a dot after it, and
      no white space. */
  lemma EmailShapeFacts(m: string)
    requires EmailShaped(m)
    ensures exists at :: 0 < at < |m| && m[at] == '@'
                         && (forall i :: 0 <= i < |m| && m[i] == '@' ==> i == at)
                         && (exists dot :: at < dot < |m| && m[dot] == '.')
    ensures forall i :: 0 <= i < |m| ==> !IsSpace(m[i])
  {
    var at, dot :| 0 < at && at + 1 < dot < |m| - 1 && m[at] == '@' && m[dot] == '.'
                   && (forall i :: 0 <= i < |m| && i != at ==> IsEmailChar(m[i]));
    assert forall i :: 0 <= i < |m| && m[i] == '@' ==> i == at;
    assert at < dot < |m| && m[dot] == '.';
  }

  // ----- location: /([^|]+)$/ ---------------------------------------------

  /** One past the last bar in `s[..j]`, or 0 when there is none. */
  function AfterLastBar(s: string, j: nat): (k: nat)
    requires j <= |s|
    ensures k <= j && (k > 0 ==> s[k - 1] == '|')
    ensures forall i :: k <= i < j ==> s[i] != '|'
  {
    if j == 0 then 0 else if s[j - 1] == '|' then j else AfterLastBar(s, j - 1)
  }

  /** Without the m flag `$` matches at the end only. From a start before
      the last bar the greedy `[^|]+` stops at that bar, so the leftmost
      start that reaches the end is one past the last bar, and there is
      no match when nothing follows it. */
  function MatchLocation(s: string): (m: Option<string>)
    ensures m.None? <==> s == [] || s[|s| - 1] == '|'
    ensures m.Some? ==> 0 < |m.value| <= |s| && m.value == s[|s| - |m.value|..]
    ensures m.Some? ==> '|' !in m.value
    ensures m.Some? ==> |m.value| == |s| || s[|s| - |m.value| - 1] == '|'
  {
    var p := AfterLastBar(s, |s|);
    if p < |s| then Some(s[p..]) else None
  }

  // ----- phone: /(\+?\d{1,3}[-.\s]?)?\(?\d{3}\)?[-.\s]?\d{3}[-.\s]?\d{4}/ -----

  datatype CharClass = Digit | PlusSign | OpenParen | CloseParen | Separator

  /** The regular-expression constructs the phone pattern uses. */
  datatype Pattern =
    | Char(cls: CharClass)
    | Cat(first: Pattern, second: Pattern)
    | Optional(body: Pattern)

  predicate InClass(cls: CharClass, c: char) {
    match cls
    case Digit => IsDigit(c)
    case PlusSign => c == '+'
    case OpenParen => c == '('
    case CloseParen => c == ')'
    case Separator => c == '-' || c == '.' || IsSpace(c)
  }

  /** Every way `p` can match starting at `i`, as end positions listed in
      backtracking order: the first entry is what the matcher commits to
      when nothing follows, and a concatenation tries each end of its first
      part in turn. A greedy `?` tries its body before skipping it. */
  function Ends(p: Pattern, s: string, i: nat): (ends: seq<nat>)
    requires i <= |s|
    ensures forall j :: j in ends ==> i <= j <= |s|
    decreases p, 0
  {
    match p
    case Char(cls) => if i < |s| && InClass(cls, s[i]) then [i + 1] else []
    case Cat(a, b) => EndsFrom(b, s, i, Ends(a, s, i))
    case Optional(a) => Ends(a, s, i) + [i]
  }

  /** The ends of `p` from each start in `starts`, in the order given. */
  function EndsFrom(p: Pattern, s: string, lo: nat, starts: seq<nat>): (ends: seq<nat>)
    requires forall j :: j in starts ==> lo <= j <= |s|
    ensures forall j :: j in ends ==> lo <= j <= |s|
    decreases p, 1, |starts|
  {
    if starts == [] then []
    else
      assert starts[0] in starts;
      assert forall j :: j in starts[1..] ==> j in starts;
      Ends(p, s, starts[0]) + EndsFrom(p, s, lo, starts[1..])
  }

  function Repeat(p: Pattern, n: nat): Pattern
    requires n >= 1
  {
    if n == 1 then p else Cat(p, Repeat(p, n - 1))
  }

  const Digit1 := Char(Digit)
  /** `[-.\s]?` */
  const OptSeparator := Optional(Char(Separator))
  /** `(\+?\d{1,3}[-.\s]?)?`: greedy `\d{1,3}` tries three digits, then two, then one. */
  const CountryCode := Optional(Cat(Optional(Char(PlusSign)),
                                    Cat(Cat(Digit1, Optional(Cat(Digit1, Optional(Digit1)))), OptSeparator)))
  const PhonePattern :=
    Cat(CountryCode, Cat(Optional(Char(OpenParen)), Cat(Repeat(Digit1, 3), Cat(Optional(Char(CloseParen)),
    Cat(OptSeparator, Cat(Repeat(Digit1, 3), Cat(OptSeparator, Repeat(Digit1, 4))))))))

  /** The leftmost start, at or after `from`, where `pat` matches, with the
      end the matcher commits to there. */
  function FindMatch(pat: Pattern, s: string, from: nat): (r: Option<(nat, nat)>)
    requires from <= |s|
    ensures r.Some? ==> from <= r.value.0 <= |s| && Ends(pat, s, r.value.0) != []
                        && r.value.1 == Ends(pat, s, r.value.0)[0]
    ensures r.Some? ==> forall p :: from <= p < r.value.0 ==> Ends(pat, s, p) == []
    ensures r.None? ==> forall p :: from <= p <= |s| ==> Ends(pat, s, p) == []
    decreases |s| - from
  {
    var ends := Ends(pat, s, from);
    if ends != [] then Some((from, ends[0]))
    else if from == |s| then None
    else FindMatch(pat, s, from + 1)
  }

  /** `phoneMatch[0]`: the whole of the leftmost match. */
  function MatchPhone(s: string): Option<string> {
    match FindMatch(PhonePattern, s, 0)
    case None => None
    case Some((p, e)) => assert e in Ends(PhonePattern, s, p); Some(s[p..e])
  }

  /** Number of digits among `s[i..j]`. */
  function DigitsIn(s: string, i: nat, j: nat): nat
    requires i <= j <= |s|
    decreases j - i
  {
    if i == j then 0 else DigitsIn(s, i, j - 1) + (if IsDigit(s[j - 1]) then 1 else 0)
  }

  lemma {:induction false} DigitsInSplit(s: string, i: nat, k: nat, j: nat)
    requires i <= k <= j <= |s|
    ensures DigitsIn(s, i, j) == DigitsIn(s, i, k) + DigitsIn(s, k, j)
    decreases j - k
  {
    if k < j {
      DigitsInSplit(s, i, k, j - 1);
    }
  }

  lemma {:induction false} DigitsInSlice(s: string, i: nat, j: nat)
    requires i <= j <= |s|
    ensures CountDigits(s[i..j]) == DigitsIn(s, i, j)
    decreases j - i
  {
    if i < j {
      DigitsInSlice(s, i, j - 1);
      assert s[i..j] == s[i..j - 1] + [s[j - 1]];
      CountDigitsAppend(s[i..j - 1], [s[j - 1]]);
    }
  }

  /** Fewest digits any match of `p` contains. */
  function MinDigits(p: Pattern): nat {
    match p
    case Char(cls) => if cls == Digit then 1 else 0
    case Cat(a, b) => MinDigits(a) + MinDigits(b)
    case Optional(_) => 0
  }

  /** Whether every match of `p` ends with a digit. */
  predicate EndsWithDigit(p: Pattern) {
    match p
    case Char(cls) => cls == Digit
    case Cat(_, b) => EndsWithDigit(b)
    case Optional(_) => false
  }

  /** Every match of `p` has at least `MinDigits(p)` digits, and ends with a
      digit when `EndsWithDigit(p)`. */
  lemma {:induction false} EndsShape(p: Pattern, s: string, i: nat)
    requires i <= |s|
    ensures forall j :: j in Ends(p, s, i) ==> DigitsIn(s, i, j) >= MinDigits(p)
    ensures EndsWithDigit(p) ==> forall j :: j in Ends(p, s, i) ==> i < j && IsDigit(s[j - 1])
    decreases p, 0
  {
    match p
    case Char(cls) =>
    case Cat(a, b) =>
      EndsShape(a, s, i);
      EndsFromShape(a, b, s, i, Ends(a, s, i));
    case Optional(a) =>
      EndsShape(a, s, i);
  }

  lemma {:induction false} EndsFromShape(a: Pattern, b: Pattern, s: string, lo: nat, starts: seq<nat>)
    requires forall k :: k in starts ==> lo <= k <= |s| && DigitsIn(s, lo, k) >= MinDigits(a)
    ensures forall j :: j in EndsFrom(b, s, lo, starts) ==> DigitsIn(s, lo, j) >= MinDigits(a) + MinDigits(b)
    ensures EndsWithDigit(b) ==> forall j :: j in EndsFrom(b, s, lo, starts) ==> lo < j && IsDigit(s[j - 1])
    decreases b, 1, |starts|
  {
    if starts != [] {
      var k := starts[0];
      assert k in starts;
      assert forall j :: j in starts[1..] ==> j in starts;
      EndsShape(b, s, k);
      forall j | j in Ends(b, s, k) ensures DigitsIn(s, lo, j) >= MinDigits(a) + MinDigits(b) {
        DigitsInSplit(s, lo, k, j);
      }
      EndsFromShape(a, b, s, lo, starts[1..]);
    }
  }

  lemma PhonePatternCounts()
    ensures MinDigits(PhonePattern) == 10 && EndsWithDigit(PhonePattern)
  {
  }

  ghost predicate IsSubstring(x: string, s: string) {
    exists a :: 0 <= a <= |s| && x <= s[a..]
  }

  /** The phone match, when there is one, is a substring of the text with
      at least ten digits that ends with a digit. */
  lemma PhoneMatchShape(s: string)
    ensures MatchPhone(s).Some? ==>
      var m := MatchPhone(s).value;
      m != [] && IsSubstring(m, s) && CountDigits(m) >= 10 && IsDigit(m[|m| - 1])
  {
    if FindMatch(PhonePattern, s, 0).Some? {
      var (p, e) := FindMatch(PhonePattern, s, 0).value;
      PhonePatternCounts();
      MatchShape(PhonePattern, s, p, e);
      assert s[p..e] <= s[p..];
    }
  }

  lemma MatchShape(pat: Pattern, s: string, p: nat, e: nat)
    requires p <= |s| && Ends(pat, s, p) != [] && e == Ends(pat, s, p)[0]
    requires EndsWithDigit(pat)
    ensures p < e <= |s| && CountDigits(s[p..e]) >= MinDigits(pat) && IsDigit(s[e - 1])
  {
    var ends := Ends(pat, s, p);
    assert e in ends;
    EndsShape(pat, s, p);
    assert p < e <= |s| && DigitsIn(s, p, e) >= MinDigits(pat) && IsDigit(s[e - 1]);
    DigitsInSlice(s, p, e);
  }
}
