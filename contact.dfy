/**
 * The contact form: on submit, the three fields are checked in a fixed
 * order, and on success a mail body is built and handed to the mail
 * client through a `mailto:` link. Nothing is sent over the network.
 */
module Contact {
  import opened Options

  const Recipient := "pyareemohandash@gmail.com"
  const Subject := "Contact from Portfolio Website"

  /** The notification texts the handler shows. */
  const MissingFieldsNotice := "Please fill in all fields"
  const InvalidEmailNotice := "Please enter a valid email address"
  const PreparedNotice := "Your message has been prepared! Please send it via your email client."

  // ---------------------------------------------------------------------
  // The e-mail pattern ^[^\s@]+@[^\s@]+\.[^\s@]+$
  // ---------------------------------------------------------------------

  /** A character of the `\s` class of ECMAScript regular expressions (WhiteSpace and LineTerminator). */
  predicate IsWhitespace(c: char) {
    var n := c as int;
    (0x09 <= n <= 0x0D) || n == 0x20 || n == 0xA0 || n == 0x1680 ||
    (0x2000 <= n <= 0x200A) || n == 0x2028 || n == 0x2029 || n == 0x202F ||
    n == 0x205F || n == 0x3000 || n == 0xFEFF
  }

  /** A character of the class `[^\s@]`. */
  predicate AddressChar(c: char) {
    !IsWhitespace(c) && c != '@'
  }

  predicate AllAddressChars(t: string) {
    forall j :: 0 <= j < |t| ==> AddressChar(t[j])
  }

  /**
   * The pattern itself: the input splits as L '@' D '.' T with L, D and T
   * non-empty runs of `[^\s@]`.
   */
  predicate IsValidEmail(s: string): (ok: bool)
    ensures ok ==> 5 <= |s| && AddressChar(s[0]) && AddressChar(s[|s| - 1])
  {
    exists i, k :: 0 <= i < |s| && 0 <= k < |s| && PatternSplit(s, i, k)
  }

  /** Index of the first `c` in `s`, or |s| when there is none. */
  function IndexOf(s: string, c: char): (r: nat)
    ensures r <= |s|
    ensures r < |s| ==> s[r] == c
    ensures forall j :: 0 <= j < r ==> s[j] != c
  {
    if s == [] then 0
    else if s[0] == c then 0
    else 1 + IndexOf(s[1..], c)
  }

  predicate NoWhitespace(s: string) {
    forall j :: 0 <= j < |s| ==> !IsWhitespace(s[j])
  }

  /**
   * The same set of addresses, described field by field: no whitespace,
   * exactly one '@' with something before it, and after it a '.' that is
   * neither the first nor the last character of the part after the '@'.
   */
  predicate WellFormedAddress(s: string) {
    NoWhitespace(s) && multiset(s)['@'] == 1 &&
    var at := IndexOf(s, '@');
    0 < at && exists k :: at + 1 < k < |s| - 1 && s[k] == '.'
  }

  lemma NoOccurrence(t: string, c: char)
    requires forall j :: 0 <= j < |t| ==> t[j] != c
    ensures multiset(t)[c] == 0
  {
    assert c !in t;
  }

  lemma TwoOccurrences(s: string, c: char, i: nat, j: nat)
    requires i < j < |s| && s[i] == c && s[j] == c
    ensures multiset(s)[c] >= 2
  {
    assert s == s[..i] + [s[i]] + s[i + 1..j] + [s[j]] + s[j + 1..];
  }

  /** The split L '@' D '.' T at positions i and k, as the pattern reads it. */
  predicate PatternSplit(s: string, i: int, k: int) {
    0 < i && i + 1 < k && k + 1 < |s| &&
    s[i] == '@' && s[k] == '.' &&
    AllAddressChars(s[..i]) && AllAddressChars(s[i + 1..k]) && AllAddressChars(s[k + 1..])
  }

  lemma SplitIsWellFormed(s: string, i: int, k: int)
    requires PatternSplit(s, i, k)
    ensures WellFormedAddress(s)
  {
    var l, d, t := s[..i], s[i + 1..k], s[k + 1..];
    assert s == l + [s[i]] + d + [s[k]] + t;
    forall j | 0 <= j < |s| ensures !IsWhitespace(s[j]) {
      if j < i { assert s[j] == l[j]; }
      else if i < j < k { assert s[j] == d[j - i - 1]; }
      else if k < j { assert s[j] == t[j - k - 1]; }
    }
    NoOccurrence(l, '@');
    NoOccurrence(d, '@');
    NoOccurrence(t, '@');
  }

  lemma WellFormedHasSplit(s: string)
    requires WellFormedAddress(s)
    ensures exists k :: PatternSplit(s, IndexOf(s, '@'), k)
  {
    var at := IndexOf(s, '@');
    assert '@' in multiset(s);
    var k :| at + 1 < k < |s| - 1 && s[k] == '.';
    forall j | at < j < |s| ensures s[j] != '@' {
      if s[j] == '@' { TwoOccurrences(s, '@', at, j); }
    }
    assert AllAddressChars(s[..at]);
    assert AllAddressChars(s[at + 1..k]);
    assert AllAddressChars(s[k + 1..]);
    assert PatternSplit(s, at, k);
  }

  /** The pattern and the field-by-field description accept exactly the same strings. */
  lemma IsValidEmailIff(s: string)
    ensures IsValidEmail(s) <==> WellFormedAddress(s)
  {
    if IsValidEmail(s) {
      var i, k :| PatternSplit(s, i, k);
      SplitIsWellFormed(s, i, k);
    }
    if WellFormedAddress(s) {
      WellFormedHasSplit(s);
    }
  }

  // ---------------------------------------------------------------------
  // The mail body and its inverse
  // ---------------------------------------------------------------------

  datatype Fields = Fields(name: string, email: string, message: string)

  const NameLabel := "Name: "
  const EmailLabel := "\nEmail: "
  const MessageLabel := "\n\nMessage:\n"

  /** The body template of the mail the visitor is asked to send. */
  function Body(f: Fields): (b: string)
    ensures NameLabel + f.name <= b
    ensures |MessageLabel + f.message| <= |b| &&
            b[|b| - |MessageLabel + f.message|..] == MessageLabel + f.message
  {
    NameLabel + f.name + EmailLabel + f.email + MessageLabel + f.message
  }

  predicate NoLineBreak(s: string) {
    forall j :: 0 <= j < |s| ==> s[j] != '\n'
  }

  /** The text after `prefix` when `s` starts with it. */
  function After(prefix: string, s: string): (r: Option<string>)
    ensures r.Some? <==> prefix <= s
    ensures r.Some? ==> s == prefix + r.value
  {
    if prefix <= s then Some(s[|prefix|..]) else None
  }

  /** `s` cut before its first line break: the line, and the rest from the break on. */
  function SplitLine(s: string): (r: (string, string))
    ensures s == r.0 + r.1
    ensures NoLineBreak(r.0)
    ensures r.1 == [] || r.1[0] == '\n'
  {
    var n := IndexOf(s, '\n');
    (s[..n], s[n..])
  }

  /**
   * Reads the three fields back out of a body: the name runs to the first
   * line break after the name label, the e-mail to the next line break,
   * and the message is everything after the message label.
   */
  function ParseBody(b: string): Option<Fields> {
    match After(NameLabel, b)
    case None => None
    case Some(rest) => ParseFromName(rest)
  }

  function ParseFromName(rest: string): Option<Fields> {
    var line := SplitLine(rest);
    match After(EmailLabel, line.1)
    case None => None
    case Some(rest2) => ParseFromEmail(line.0, rest2)
  }

  function ParseFromEmail(name: string, rest: string): Option<Fields> {
    var line := SplitLine(rest);
    match After(MessageLabel, line.1)
    case None => None
    case Some(message) => Some(Fields(name, line.0, message))
  }

  lemma AfterConcat(prefix: string, s: string)
    ensures After(prefix, prefix + s) == Some(s)
  {
    assert (prefix + s)[|prefix|..] == s;
  }

  lemma SplitLineConcat(x: string, y: string)
    requires NoLineBreak(x)
    requires |y| > 0 && y[0] == '\n'
    ensures SplitLine(x + y) == (x, y)
  {
    assert (x + y)[|x|] == '\n';
    assert IndexOf(x + y, '\n') == |x|;
    assert (x + y)[..|x|] == x;
  }

  lemma ParseFromEmailRoundTrip(name: string, email: string, message: string)
    requires NoLineBreak(email)
    ensures ParseFromEmail(name, email + (MessageLabel + message)) == Some(Fields(name, email, message))
  {
    SplitLineConcat(email, MessageLabel + message);
    AfterConcat(MessageLabel, message);
  }

  lemma ParseFromNameRoundTrip(f: Fields)
    requires NoLineBreak(f.name) && NoLineBreak(f.email)
    ensures ParseFromName(f.name + (EmailLabel + (f.email + (MessageLabel + f.message)))) == Some(f)
  {
    var rest2 := f.email + (MessageLabel + f.message);
    SplitLineConcat(f.name, EmailLabel + rest2);
    AfterConcat(EmailLabel, rest2);
    ParseFromEmailRoundTrip(f.name, f.email, f.message);
  }

  /** A body made of a single-line name and e-mail reads back as the same fields. */
  lemma BodyRoundTrip(f: Fields)
    requires NoLineBreak(f.name) && NoLineBreak(f.email)
    ensures ParseBody(Body(f)) == Some(f)
  {
    var rest := f.name + (EmailLabel + (f.email + (MessageLabel + f.message)));
    BodyNested(f);
    AfterConcat(NameLabel, rest);
    ParseFromNameRoundTrip(f);
  }

  lemma ParseFromEmailInverse(name: string, rest: string, f: Fields)
    requires ParseFromEmail(name, rest) == Some(f)
    ensures f.name == name && NoLineBreak(f.email)
    ensures rest == f.email + (MessageLabel + f.message)
  {
    var line := SplitLine(rest);
    assert line.1 == MessageLabel + f.message;
  }

  lemma ParseFromNameInverse(rest: string, f: Fields)
    requires ParseFromName(rest) == Some(f)
    ensures NoLineBreak(f.name) && NoLineBreak(f.email)
    ensures rest == f.name + (EmailLabel + (f.email + (MessageLabel + f.message)))
  {
    var line := SplitLine(rest);
    var rest2 := After(EmailLabel, line.1).value;
    ParseFromEmailInverse(line.0, rest2, f);
  }

  /** Whatever reads back as fields is exactly the body of those fields. */
  lemma ParseBodyInverse(b: string, f: Fields)
    requires ParseBody(b) == Some(f)
    ensures Body(f) == b
    ensures NoLineBreak(f.name) && NoLineBreak(f.email)
  {
    var rest := After(NameLabel, b).value;
    assert b == NameLabel + rest;
    ParseFromNameInverse(rest, f);
    BodyNested(f);
  }

  /** The body template with its concatenations grouped from the right, as the parser reads it. */
  lemma BodyNested(f: Fields)
    ensures Body(f) == NameLabel + (f.name + (EmailLabel + (f.email + (MessageLabel + f.message))))
  {
  }

  // ---------------------------------------------------------------------
  // Submission
  // ---------------------------------------------------------------------

  datatype Rejection = MissingFields | MalformedEmail

  /** What a submit does: reject with a reason, or prepare the mail body. */
  datatype Outcome = Rejected(reason: Rejection) | Prepared(body: string)

  /**
   * The submit handler's decision. The emptiness check comes first, then
   * the e-mail pattern; only when both pass is the body built.
   */
  function Submit(name: string, email: string, message: string): (r: Outcome)
    ensures r == Rejected(MissingFields) <==> name == [] || email == [] || message == []
    ensures r == Rejected(MalformedEmail) <==>
              name != [] && email != [] && message != [] && !WellFormedAddress(email)
    ensures r.Prepared? ==> r.body == Body(Fields(name, email, message))
    ensures r.Prepared? ==>
              WellFormedAddress(email) &&
              (NoLineBreak(name) ==> ParseBody(r.body) == Some(Fields(name, email, message)))
  {
    IsValidEmailIff(email);
    if name == [] || email == [] || message == [] then Rejected(MissingFields)
    else if !IsValidEmail(email) then Rejected(MalformedEmail)
    else
      var f := Fields(name, email, message);
      assert NoLineBreak(email) by {
        forall j | 0 <= j < |email| ensures email[j] != '\n' {
          assert !IsWhitespace(email[j]);
        }
      }
      assert NoLineBreak(name) ==> ParseBody(Body(f)) == Some(f) by {
        if NoLineBreak(name) { BodyRoundTrip(f); }
      }
      Prepared(Body(f))
  }

  datatype Severity = Success | Error

  /** The one notification a submit shows, with its severity. */
  function Notice(r: Outcome): (n: (string, Severity))
    ensures n.1 == Error <==> r.Rejected?
    ensures r == Rejected(MissingFields) ==> n.0 == MissingFieldsNotice
    ensures r == Rejected(MalformedEmail) ==> n.0 == InvalidEmailNotice
    ensures r.Prepared? ==> n == (PreparedNotice, Success)
  {
    match r
    case Rejected(MissingFields) => (MissingFieldsNotice, Error)
    case Rejected(MalformedEmail) => (InvalidEmailNotice, Error)
    case Prepared(_) => (PreparedNotice, Success)
  }

  /**
   * The `mailto:` link. `encode` stands for the browser's
   * `encodeURIComponent`, whose workings are not modelled.
   */
  function MailtoLink(encode: string -> string, body: string): (link: string)
    ensures "mailto:" + Recipient + "?subject=" <= link
    ensures |encode(body)| <= |link| && link[|link| - |encode(body)|..] == encode(body)
  {
    "mailto:" + Recipient + "?subject=" + encode(Subject) + "&body=" + encode(body)
  }

  /**
   * Two links are equal only if their encoded bodies are: so with an
   * encoder that never maps two texts to one, the link determines the body.
   */
  lemma MailtoDeterminesBody(encode: string -> string, b1: string, b2: string)
    requires encode(b1) == encode(b2) ==> b1 == b2
    requires MailtoLink(encode, b1) == MailtoLink(encode, b2)
    ensures b1 == b2
  {
    var head := "mailto:" + Recipient + "?subject=" + encode(Subject) + "&body=";
    assert MailtoLink(encode, b1) == head + encode(b1);
    assert MailtoLink(encode, b2) == head + encode(b2);
    assert encode(b1) == MailtoLink(encode, b1)[|head|..];
  }
}
