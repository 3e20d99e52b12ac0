/**
 * The browser script (public/script.js): the pure helpers the page uses to
 * validate a submission, render reaction counts, escape user text into HTML
 * and describe how long ago a message was posted.
 */
module Client {
  import opened Wrappers
  import opened JsText
  import Guestbook

  // ---------------------------------------------------------------- submit

  /** Why the form refused to send, in the order the checks run. */
  datatype SubmitError = EmptyField | NameTooLong | MessageTooLong
  {
    /** The error toast shown for the refusal. */
    function Toast(): (text: string)
      ensures text != []
    {
      match this
      case EmptyField => "이름과 메시지를 모두 입력해주세요."
      case NameTooLong => "이름은 50자 이내로 입력해주세요."
      case MessageTooLong => "메시지는 500자 이내로 입력해주세요."
    }
  }

  /** What the submit handler does with the form: post the trimmed fields or show a toast. */
  datatype Submission = Send(name: string, message: string) | Refuse(error: SubmitError)

  /**
   * The submit handler's checks: both trimmed fields non-empty, then the
   * trimmed name within 50 code units, then the trimmed message within 500.
   */
  function Submit(rawName: string, rawMessage: string): (r: Submission)
    ensures r.Send? <==> Trim(rawName) != [] && Trim(rawMessage) != [] &&
                         Utf16Length(Trim(rawName)) <= Guestbook.MaxNameLength &&
                         Utf16Length(Trim(rawMessage)) <= Guestbook.MaxMessageLength
    ensures r.Send? ==> r.name == Trim(rawName) && r.message == Trim(rawMessage)
    ensures r == Refuse(EmptyField) <==> Trim(rawName) == [] || Trim(rawMessage) == []
    ensures r == Refuse(NameTooLong) <==>
              Trim(rawName) != [] && Trim(rawMessage) != [] &&
              Utf16Length(Trim(rawName)) > Guestbook.MaxNameLength
    ensures r == Refuse(MessageTooLong) <==>
              Trim(rawName) != [] && Trim(rawMessage) != [] &&
              Utf16Length(Trim(rawName)) <= Guestbook.MaxNameLength &&
              Utf16Length(Trim(rawMessage)) > Guestbook.MaxMessageLength
  {
    var name := Trim(rawName);
    var message := Trim(rawMessage);
    if name == [] || message == [] then Refuse(EmptyField)
    else if Utf16Length(name) > Guestbook.MaxNameLength then Refuse(NameTooLong)
    else if Utf16Length(message) > Guestbook.MaxMessageLength then Refuse(MessageTooLong)
    else Send(name, message)
  }

  /** A field of white space only is refused as empty, whatever the other field holds. */
  lemma SubmitRefusesBlank(rawName: string, rawMessage: string)
    requires AllWhite(rawName) || AllWhite(rawMessage)
    ensures Submit(rawName, rawMessage) == Refuse(EmptyField)
  {
    TrimEmptyIffAllWhite(rawName);
    TrimEmptyIffAllWhite(rawMessage);
  }

  /**
   * What the form sends passes every check of the create handler, and the
   * handler's own trim leaves it as it is, so the record stores exactly the
   * text the form sent.
   */
  lemma SubmitAcceptedByServer(rawName: string, rawMessage: string)
    requires Submit(rawName, rawMessage).Send?
    ensures var s := Submit(rawName, rawMessage);
            Guestbook.Acceptable(s.name, s.message) &&
            Trim(s.name) == s.name && Trim(s.message) == s.message
  {
    TrimIdempotent(rawName);
    TrimIdempotent(rawMessage);
  }

  // ------------------------------------------------------------- reactions

  /**
   * `(message.reactions || {})[emoji] || 0` for the five emojis in their
   * fixed order: one (emoji, count) button each, zero where the count is missing.
   */
  function ReactionButtons(reactions: Guestbook.Reactions): (b: seq<(string, nat)>)
    ensures |b| == |Guestbook.Emojis|
    ensures forall i :: 0 <= i < |b| ==> b[i].0 == Guestbook.Emojis[i]
    ensures forall i :: 0 <= i < |b| && Guestbook.Emojis[i] !in reactions ==> b[i].1 == 0
    ensures forall i :: 0 <= i < |b| && Guestbook.Emojis[i] in reactions ==>
              b[i].1 == reactions[Guestbook.Emojis[i]]
  {
    seq(|Guestbook.Emojis|, i requires 0 <= i < |Guestbook.Emojis| =>
      (Guestbook.Emojis[i], Guestbook.Count(reactions, Guestbook.Emojis[i])))
  }

  /** A record without counts (or with an empty object) shows five zeros. */
  lemma ButtonsOfNoReactions()
    ensures forall i :: 0 <= i < |Guestbook.Emojis| ==> ReactionButtons(map[])[i].1 == 0
  {
  }

  /** Keys other than the five emojis never reach the page. */
  lemma ButtonsIgnoreOtherKeys(reactions: Guestbook.Reactions, other: string, n: nat)
    requires other !in Guestbook.Emojis
    ensures ReactionButtons(reactions[other := n]) == ReactionButtons(reactions)
  {
  }

  /**
   * After the react handler adds one to `e`, the page shows that button's
   * count one higher and every other button as before.
   */
  lemma ButtonsAfterReaction(reactions: Guestbook.Reactions, k: nat)
    requires k < |Guestbook.Emojis|
    ensures var before := ReactionButtons(reactions);
            var after := ReactionButtons(Guestbook.AddReaction(reactions, Guestbook.Emojis[k]));
            after[k].1 == before[k].1 + 1 &&
            forall i :: 0 <= i < |after| && i != k ==> after[i] == before[i]
  {
    var e := Guestbook.Emojis[k];
    forall i | 0 <= i < |Guestbook.Emojis| && i != k
      ensures Guestbook.Emojis[i] != e
    {
    }
  }

  // ----------------------------------------------------------- escapeHtml

  /** The characters `escapeHtml` replaces. */
  predicate IsSpecial(c: char)
  {
    c == '&' || c == '<' || c == '>' || c == '"' || c == '\''
  }

  /** The replacement for one character: an entity for the five, the character itself otherwise. */
  function Entity(c: char): string
  {
    match c
    case '&' => "&amp;"
    case '<' => "&lt;"
    case '>' => "&gt;"
    case '"' => "&quot;"
    case '\'' => "&#039;"
    case _ => [c]
  }

  /** Characters that would end an attribute value or open or close a tag. */
  predicate IsMarkup(c: char)
  {
    c == '<' || c == '>' || c == '"' || c == '\''
  }

  /** `text.replace(/[&<>"']/g, m => map[m])`: each character replaced by its `Entity`, left to right. */
  function EscapeHtml(s: string): (r: string)
    ensures |r| >= |s|
    ensures forall i :: 0 <= i < |r| ==> !IsMarkup(r[i])
  {
    if s == [] then [] else Entity(s[0]) + EscapeHtml(s[1..])
  }

  /** Escaping works character by character, so it distributes over concatenation. */
  lemma {:induction false} EscapeHtmlAppend(a: string, b: string)
    ensures EscapeHtml(a + b) == EscapeHtml(a) + EscapeHtml(b)
  {
    if a != [] {
      assert (a + b)[1..] == a[1..] + b;
      EscapeHtmlAppend(a[1..], b);
    } else {
      assert a + b == b;
    }
  }

  /** Text with none of the five characters comes back unchanged. */
  lemma {:induction false} EscapeHtmlPlain(s: string)
    requires forall i :: 0 <= i < |s| ==> !IsSpecial(s[i])
    ensures EscapeHtml(s) == s
  {
    if s != [] {
      EscapeHtmlPlain(s[1..]);
    }
  }

  /** The five replacements, one character at a time. */
  lemma EscapeHtmlEntities()
    ensures EscapeHtml("&") == "&amp;" && EscapeHtml("<") == "&lt;" && EscapeHtml(">") == "&gt;"
    ensures EscapeHtml("\"") == "&quot;" && EscapeHtml("'") == "&#039;"
  {
  }

  /** Reads the five entities back; any other text is copied. */
  function UnescapeHtml(s: string): string
  {
    if s == [] then []
    else if "&amp;" <= s then "&" + UnescapeHtml(s[5..])
    else if "&lt;" <= s then "<" + UnescapeHtml(s[4..])
    else if "&gt;" <= s then ">" + UnescapeHtml(s[4..])
    else if "&quot;" <= s then "\"" + UnescapeHtml(s[6..])
    else if "&#039;" <= s then "'" + UnescapeHtml(s[6..])
    else [s[0]] + UnescapeHtml(s[1..])
  }

  /** A string is not a prefix of one it differs from at some position. */
  lemma NotPrefix(p: string, t: string, i: nat)
    requires i < |p| && i < |t| && p[i] != t[i]
    ensures !(p <= t)
  {
  }

  /** Reading back the replacement of one character gives that character. */
  lemma UnescapeEntity(c: char, rest: string)
    ensures UnescapeHtml(Entity(c) + rest) == [c] + UnescapeHtml(rest)
  {
    var e := Entity(c);
    var t := e + rest;
    assert t[..|e|] == e && t[|e|..] == rest;
    if c != '&' {
      NotPrefix("&amp;", t, if IsSpecial(c) then 1 else 0);
    }
    if IsSpecial(c) && c != '&' && c != '<' {
      NotPrefix("&lt;", t, 1);
    }
    if c == '"' || c == '\'' {
      NotPrefix("&gt;", t, 1);
    }
    if c == '\'' {
      NotPrefix("&quot;", t, 1);
    }
    if !IsSpecial(c) {
      NotPrefix("&lt;", t, 0);
      NotPrefix("&gt;", t, 0);
      NotPrefix("&quot;", t, 0);
      NotPrefix("&#039;", t, 0);
      assert t[1..] == rest;
    }
  }

  /** Escaping loses nothing: the original text can be read back from the HTML. */
  lemma {:induction false} EscapeHtmlRoundTrip(s: string)
    ensures UnescapeHtml(EscapeHtml(s)) == s
  {
    if s != [] {
      EscapeHtmlRoundTrip(s[1..]);
      UnescapeEntity(s[0], EscapeHtml(s[1..]));
      assert s == [s[0]] + s[1..];
    }
  }

  // ----------------------------------------------------------- formatTime

  const MinuteMs := 60000
  const HourMs := 3600000
  const DayMs := 86400000

  /** How `formatTime` describes an age: the bucket and the whole number shown in it. */
  datatype Age = JustNow | MinutesAgo(n: nat) | HoursAgo(n: nat) | DaysAgo(n: nat) | Calendar

  /**
   * The branches of `formatTime` for `diffMs = now - date`.  `Math.floor` of
   * a division by a positive constant is Dafny's `/`, which rounds towards
   * minus infinity for a positive divisor.
   */
  function AgeOf(diffMs: int): (a: Age)
    ensures a == JustNow <==> diffMs < MinuteMs
    ensures a.MinutesAgo? <==> MinuteMs <= diffMs < HourMs
    ensures a.HoursAgo? <==> HourMs <= diffMs < DayMs
    ensures a.DaysAgo? <==> DayMs <= diffMs < 7 * DayMs
    ensures a == Calendar <==> 7 * DayMs <= diffMs
    ensures a.MinutesAgo? ==> a.n == diffMs / MinuteMs && 1 <= a.n < 60
    ensures a.HoursAgo? ==> a.n == diffMs / HourMs && 1 <= a.n < 24
    ensures a.DaysAgo? ==> a.n == diffMs / DayMs && 1 <= a.n < 7
  {
    var diffMins := diffMs / MinuteMs;
    var diffHours := diffMs / HourMs;
    var diffDays := diffMs / DayMs;
    if diffMins < 1 then JustNow
    else if diffMins < 60 then MinutesAgo(diffMins)
    else if diffHours < 24 then HoursAgo(diffHours)
    else if diffDays < 7 then DaysAgo(diffDays)
    else Calendar
  }

  /** An older message never gets a younger description. */
  lemma AgeMonotone(d1: int, d2: int)
    requires d1 <= d2
    ensures Rank(AgeOf(d1)) <= Rank(AgeOf(d2))
    ensures AgeOf(d1).MinutesAgo? && AgeOf(d2).MinutesAgo? ==> AgeOf(d1).n <= AgeOf(d2).n
    ensures AgeOf(d1).HoursAgo? && AgeOf(d2).HoursAgo? ==> AgeOf(d1).n <= AgeOf(d2).n
    ensures AgeOf(d1).DaysAgo? && AgeOf(d2).DaysAgo? ==> AgeOf(d1).n <= AgeOf(d2).n
  {
  }

  function Rank(a: Age): nat
  {
    match a
    case JustNow => 0
    case MinutesAgo(_) => 1
    case HoursAgo(_) => 2
    case DaysAgo(_) => 3
    case Calendar => 4
  }

  /** The label `formatTime` returns; `None` where it defers to the locale date format. */
  function FormatTime(diffMs: int): (shown: Option<string>)
    ensures shown.None? <==> 7 * DayMs <= diffMs
    ensures diffMs < MinuteMs ==> shown == Some("방금 전")
    ensures MinuteMs <= diffMs < HourMs ==> shown == Some(Decimal(diffMs / MinuteMs) + "분 전")
    ensures HourMs <= diffMs < DayMs ==> shown == Some(Decimal(diffMs / HourMs) + "시간 전")
    ensures DayMs <= diffMs < 7 * DayMs ==> shown == Some(Decimal(diffMs / DayMs) + "일 전")
  {
    match AgeOf(diffMs)
    case JustNow => Some("방금 전")
    case MinutesAgo(n) => Some(Decimal(n) + "분 전")
    case HoursAgo(n) => Some(Decimal(n) + "시간 전")
    case DaysAgo(n) => Some(Decimal(n) + "일 전")
    case Calendar => None
  }
}
