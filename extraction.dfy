/**
 * `extractPersonalInfo` with its DOM reads made into inputs: the text of the
 * section titled "Header" (`None` when the document has no such section),
 * the markup of the whole resume, the body's template class and the time
 * stamp. Each field is what the source makes of its regular-expression
 * match: trimmed, cut at commas, or a fixed default when there is no match.
 */
module Extraction {
  import opened Wrappers
  import opened JsString
  import opened HeaderPatterns

  /** The record the client builds, posts and caches. */
  datatype Draft = Draft(
    name: string,
    email: string,
    phone: string,
    city: string,
    country: string,
    resumeContent: string,
    template: string,
    createdAt: string)

  function NameOf(text: string): string {
    match MatchName(text)
    case Some(m) => Trim(m)
    case None => "Unknown"
  }

  function EmailOf(text: string): string {
    match MatchEmail(text)
    case Some(m) => Trim(m)
    case None => ""
  }

  function PhoneOf(text: string): string {
    match MatchPhone(text)
    case Some(m) => Trim(m)
    case None => ""
  }

  /** The trimmed location, cut before its first comma; the piece itself is
      not trimmed again. */
  function CityOf(text: string): string {
    match MatchLocation(text)
    case Some(loc) => Split(Trim(loc), ',')[0]
    case None => ""
  }

  /** The untrimmed location's second comma-separated piece, trimmed. */
  function CountryOf(text: string): string {
    match MatchLocation(text)
    case Some(loc) => if ',' in loc then Trim(Split(loc, ',')[1]) else ""
    case None => ""
  }

  function ExtractPersonalInfo(header: Option<string>, markup: string, template: string, now: string): (d: Option<Draft>)
    ensures d.None? <==> header.None?
    ensures d.Some? ==> d.value.resumeContent == markup && d.value.template == template && d.value.createdAt == now
  {
    match header
    case None => None
    case Some(text) =>
      Some(Draft(NameOf(text), EmailOf(text), PhoneOf(text), CityOf(text), CountryOf(text), markup, template, now))
  }

  /** The name is the trimmed longest leading run free of line feeds and
      bars, and "Unknown" when that run is empty. */
  lemma NameIsTrimmedLeadingRun(text: string)
    ensures '\n' !in NameOf(text) && '|' !in NameOf(text)
    ensures text == [] || !IsNameChar(text[0]) ==> NameOf(text) == "Unknown"
    ensures forall k :: 0 < k <= |text| && (forall i :: 0 <= i < k ==> IsNameChar(text[i]))
                        && (k == |text| || !IsNameChar(text[k]))
                     ==> NameOf(text) == Trim(text[..k])
  {
    match MatchName(text)
    case None =>
    case Some(m) =>
      TrimKeepsDigits(m);
      forall k | 0 < k <= |text| && (forall i :: 0 <= i < k ==> IsNameChar(text[i]))
                 && (k == |text| || !IsNameChar(text[k]))
        ensures NameOf(text) == Trim(text[..k])
      {
        assert |m| == k;
      }
  }

  /** The email is empty exactly when no substring of the header is
      email-shaped; otherwise it is the leftmost, longest such substring,
      unchanged by `trim`: one `@`, a dot after it, no white space. */
  lemma EmailIsFirstMatch(text: string)
    ensures EmailOf(text) == "" <==> forall p, e :: 0 <= p <= e <= |text| ==> !EmailShaped(text[p..e])
    ensures EmailOf(text) != "" ==>
      var (p, e) := FindEmail(text, 0).value;
      && EmailOf(text) == text[p..e] && EmailShaped(EmailOf(text))
      && (forall p', e' :: 0 <= p' < p && p' <= e' <= |text| ==> !EmailShaped(text[p'..e']))
    ensures forall i :: 0 <= i < |EmailOf(text)| ==> !IsSpace(EmailOf(text)[i])
  {
    EmailMatchIsLeftmostLongest(text);
    match FindEmail(text, 0)
    case None =>
    case Some((p, e)) =>
      EmailShapeFacts(text[p..e]);
      TrimWithoutSpace(text[p..e]);
  }

  /** The phone number is empty exactly when the pattern matches nowhere;
      otherwise it is a substring of the header with at least ten digits
      that ends with a digit. */
  lemma PhoneShape(text: string)
    ensures PhoneOf(text) == "" <==> MatchPhone(text).None?
    ensures PhoneOf(text) != "" ==>
      && IsSubstring(PhoneOf(text), text)
      && CountDigits(PhoneOf(text)) >= 10
      && IsDigit(PhoneOf(text)[|PhoneOf(text)| - 1])
  {
    PhoneMatchShape(text);
    if MatchPhone(text).Some? {
      TrimmedPhone(MatchPhone(text).value, text);
    }
  }

  lemma TrimmedPhone(m: string, text: string)
    requires m != [] && IsSubstring(m, text) && CountDigits(m) >= 10 && IsDigit(m[|m| - 1])
    ensures Trim(m) != [] && IsSubstring(Trim(m), text)
    ensures CountDigits(Trim(m)) >= 10 && IsDigit(Trim(m)[|Trim(m)| - 1])
  {
    TrimKeepsDigits(m);
    TrimKeepsLast(m);
    var a :| 0 <= a <= |text| && m <= text[a..];
    TrimInside(m, text, a);
  }

  /** City and country come from the text after the last bar: both are
      empty when nothing follows it; the city is the trimmed location cut
      before its first comma, and the country is the trimmed piece between
      the location's first and second commas. Neither holds a comma. */
  lemma LocationFields(text: string)
    ensures text == [] || text[|text| - 1] == '|' ==> CityOf(text) == "" && CountryOf(text) == ""
    ensures ',' !in CityOf(text) && ',' !in CountryOf(text)
    ensures MatchLocation(text).Some? ==>
      var loc := MatchLocation(text).value;
      && CityOf(text) == Before(Trim(loc), ',')
      && (',' !in loc ==> CountryOf(text) == "")
      && (',' in loc ==> CountryOf(text) == Trim(Before(loc[|Before(loc, ',')| + 1..], ',')))
  {
    match MatchLocation(text)
    case None =>
    case Some(loc) =>
      if ',' in loc {
        var pieces := Split(loc, ',');
        SplitStep(loc, ',');
        TrimKeepsDigits(pieces[1]);
      }
  }

  /** The city keeps the white space before the comma: the location is
      trimmed before the split, the piece is not trimmed after it. */
  lemma CityNotRetrimmed()
    ensures CityOf("J|A ,T") == "A "
  {
    var s := "J|A ,T";
    assert AfterLastBar(s, 6) == 2 by {
      assert s[5] != '|' && s[4] != '|' && s[3] != '|' && s[2] != '|' && s[1] == '|';
    }
    var loc := "A ,T";
    assert MatchLocation(s) == Some(loc);
    assert TrimStart(loc) == 0;
    assert TrimEnd(loc) == 4;
    assert Trim(loc) == loc;
    assert Before(loc, ',') == "A " by {
      assert loc[0] != ',' && loc[1] != ',' && loc[2] == ',';
    }
  }
}
