/**
 * `createRawEmail`: the unsubscribe request as a plain-text message, encoded
 * for the `raw` field of the mailbox's send operation.
 *
 * The header lines and the body are joined with a bare line feed (not the CRLF
 * of section 2.1 of RFC 5322); the subject is a "B" encoded-word of RFC 2047
 * (sections 2 and 4.1); the whole message is converted to UTF-8 and written as
 * unpadded base64url (section 5 of RFC 4648).
 */
module RawEmail {
  import opened Wrappers
  import opened Text
  import opened Bytes
  import Base64
  import Utf8

  const ContentType: string := "Content-Type: text/plain; charset=utf-8"
  const MimeVersion: string := "MIME-Version: 1.0"
  const WordStart: string := "=?utf-8?B?"
  const WordEnd: string := "?="

  /** `=?utf-8?B?${Buffer.from(text).toString('base64')}?=` */
  function EncodedWord(text: string): string {
    WordStart + Base64.Encode(Utf8.Encode(text)) + WordEnd
  }

  /** The four header lines, in the order the controller writes them. */
  function HeaderLines(to: string, subject: string): seq<string> {
    ["To: " + to, ContentType, MimeVersion, "Subject: " + EncodedWord(subject)]
  }

  /** `messageParts.join('\n')`: the header lines, an empty line, then the body. */
  function Message(to: string, subject: string, body: string): string {
    Join(HeaderLines(to, subject) + ["", body], '\n')
  }

  /** What the controller hands to the send operation as `raw`. */
  function CreateRawEmail(to: string, subject: string, body: string): (raw: string)
    ensures forall k :: 0 <= k < |raw| ==> Base64.IsUrlAlphabetChar(raw[k])
    ensures |raw| == 4 * (|Utf8.Encode(Message(to, subject, body))| / 3)
      + (if |Utf8.Encode(Message(to, subject, body))| % 3 == 0 then 0
         else if |Utf8.Encode(Message(to, subject, body))| % 3 == 1 then 2 else 3)
  {
    var bytes := Utf8.Encode(Message(to, subject, body));
    Base64.EncodeUrlAlphabet(bytes);
    Base64.EncodeUrlLength(bytes);
    Base64.EncodeUrl(bytes)
  }

  /** Decoding the raw form (re-pad, map back, base64, UTF-8) recovers the message text. */
  lemma RawDecodes(to: string, subject: string, body: string)
    ensures (match Base64.DecodeUrl(CreateRawEmail(to, subject, body))
             case None => None
             case Some(bytes) => Utf8.Decode(bytes))
      == Some(Message(to, subject, body))
  {
    var message := Message(to, subject, body);
    Base64.DecodeUrlEncodeUrl(Utf8.Encode(message));
    Utf8.DecodeEncode(message);
  }

  // ---- a reader for the message layout ----

  /** A message as a reader sees it: the header lines and the body. */
  datatype Mail = Mail(headers: seq<string>, body: string)

  /** The position of the first empty line. */
  function FirstEmpty(lines: seq<string>): (r: Option<nat>)
    ensures r.Some? ==> r.value < |lines| && lines[r.value] == ""
    ensures r.Some? ==> forall i :: 0 <= i < r.value ==> lines[i] != ""
    ensures r.None? ==> forall i :: 0 <= i < |lines| ==> lines[i] != ""
  {
    if |lines| == 0 then None
    else if lines[0] == "" then Some(0)
    else match FirstEmpty(lines[1..])
      case None => None
      case Some(i) => Some(i + 1)
  }

  /** An empty line with only non-empty lines before it is the first empty line. */
  lemma FirstEmptyAt(lines: seq<string>, k: nat)
    requires k < |lines| && lines[k] == ""
    requires forall i :: 0 <= i < k ==> lines[i] != ""
    ensures FirstEmpty(lines) == Some(k)
  {
    var r := FirstEmpty(lines);
    assert r.Some?;
    assert !(r.value < k);
    assert !(r.value > k);
  }

  /**
   * Splits a message on line feeds: the lines before the first empty one are
   * the headers, everything after it, line feeds included, is the body.
   */
  function ReadMessage(m: string): (r: Option<Mail>)
    ensures r.Some? ==> forall i :: 0 <= i < |r.value.headers| ==> r.value.headers[i] != ""
  {
    var lines := Split(m, '\n');
    match FirstEmpty(lines)
    case None => None
    case Some(k) => Some(Mail(lines[..k], Join(lines[k + 1..], '\n')))
  }

  /** Base64 output holds no line feed. */
  lemma EncodeNoNewline(b: seq<byte>)
    ensures '\n' !in Base64.Encode(b)
  {
    var d := Base64.Digits(b);
    forall k | 0 <= k < |d| ensures d[k] != '\n' {
      Base64.CharInAlphabet(Base64.Value(d[k]).value);
    }
  }

  /** Splitting line-feed-free header lines, an empty line and a body gives those lines, the empty line and the body's pieces. */
  lemma SplitLayout(heads: seq<string>, body: string)
    requires forall i :: 0 <= i < |heads| ==> '\n' !in heads[i]
    ensures Split(Join(heads + ["", body], '\n'), '\n') == heads + [""] + Split(body, '\n')
  {
    var lines := heads + [""];
    assert heads + ["", body] == lines + [body];
    JoinSnoc(lines, body, '\n');
    assert forall i :: 0 <= i < |lines| ==> '\n' !in lines[i] by {
      forall i | 0 <= i < |lines| ensures '\n' !in lines[i] {
        if i < |heads| {
          assert lines[i] == heads[i];
        }
      }
    }
    SplitJoinThen(lines, '\n', body);
  }

  /**
   * Non-empty header lines free of line feeds, an empty line and a body read
   * back as those header lines and that body, whatever the body holds.
   */
  lemma ReadLayout(heads: seq<string>, body: string)
    requires |heads| >= 1
    requires forall i :: 0 <= i < |heads| ==> heads[i] != "" && '\n' !in heads[i]
    ensures ReadMessage(Join(heads + ["", body], '\n')) == Some(Mail(heads, body))
  {
    SplitLayout(heads, body);
    var all := heads + [""] + Split(body, '\n');
    var k := |heads|;
    assert all[..k] == heads;
    assert all[k] == "";
    assert all[k + 1..] == Split(body, '\n');
    assert forall i :: 0 <= i < k ==> all[i] != "" by {
      forall i | 0 <= i < k ensures all[i] != "" {
        assert all[i] == heads[i];
      }
    }
    FirstEmptyAt(all, k);
    JoinSplit(body, '\n');
    var m := Join(heads + ["", body], '\n');
    assert Split(m, '\n') == all;
    assert ReadMessage(m) == Some(Mail(all[..k], Join(all[k + 1..], '\n')));
  }

  /** The header lines hold no line feed (when the recipient holds none) and none is empty. */
  lemma HeaderLinesClean(to: string, subject: string)
    requires '\n' !in to
    ensures forall i :: 0 <= i < 4 ==> HeaderLines(to, subject)[i] != "" && '\n' !in HeaderLines(to, subject)[i]
  {
    var heads := HeaderLines(to, subject);
    ToLineClean(to);
    FixedLinesClean();
    SubjectLineClean(subject);
    forall i | 0 <= i < 4 ensures heads[i] != "" && '\n' !in heads[i] {
      if i == 0 {
        assert heads[0] == "To: " + to;
      } else if i == 1 {
        assert heads[1] == ContentType;
      } else if i == 2 {
        assert heads[2] == MimeVersion;
      } else {
        assert heads[3] == "Subject: " + EncodedWord(subject);
      }
    }
  }

  lemma ToLineClean(to: string)
    requires '\n' !in to
    ensures "To: " + to != "" && '\n' !in "To: " + to
  {
    assert '\n' !in "To: ";
    NoNewlineJoined("To: ", to);
    assert ("To: " + to)[0] == 'T';
  }

  lemma FixedLinesClean()
    ensures ContentType != "" && '\n' !in ContentType
    ensures MimeVersion != "" && '\n' !in MimeVersion
  {
  }

  lemma SubjectLineClean(subject: string)
    ensures "Subject: " + EncodedWord(subject) != "" && '\n' !in "Subject: " + EncodedWord(subject)
  {
    var b64 := Base64.Encode(Utf8.Encode(subject));
    EncodeNoNewline(Utf8.Encode(subject));
    var lead := "Subject: " + WordStart;
    assert '\n' !in lead && '\n' !in WordEnd;
    NoNewlineJoined(lead, b64);
    NoNewlineJoined(lead + b64, WordEnd);
    assert "Subject: " + EncodedWord(subject) == lead + b64 + WordEnd;
    assert ("Subject: " + EncodedWord(subject))[0] == 'S';
  }

  lemma NoNewlineJoined(a: string, b: string)
    requires '\n' !in a && '\n' !in b
    ensures '\n' !in a + b
  {
  }

  /**
   * The layout the controller writes: read back, the message has exactly the
   * four header lines and the body, as long as the recipient holds no line feed.
   */
  lemma MessageLayout(to: string, subject: string, body: string)
    requires '\n' !in to
    ensures ReadMessage(Message(to, subject, body)) == Some(Mail(HeaderLines(to, subject), body))
  {
    HeaderLinesClean(to, subject);
    ReadLayout(HeaderLines(to, subject), body);
  }

  /** Reads the subject back out of an encoded-word line. */
  function DecodeSubject(line: string): Option<string> {
    var prefix := "Subject: " + WordStart;
    if |line| >= |prefix| + |WordEnd| && line[..|prefix|] == prefix && line[|line| - |WordEnd|..] == WordEnd then
      match Base64.Decode(line[|prefix|..|line| - |WordEnd|])
      case None => None
      case Some(bytes) => Utf8.Decode(bytes)
    else None
  }

  /** The encoded-word subject line decodes back to the subject. */
  lemma SubjectRoundTrip(subject: string)
    ensures DecodeSubject("Subject: " + EncodedWord(subject)) == Some(subject)
  {
    var b64 := Base64.Encode(Utf8.Encode(subject));
    var prefix := "Subject: " + WordStart;
    var line := prefix + b64 + WordEnd;
    assert "Subject: " + EncodedWord(subject) == line;
    assert line[..|prefix|] == prefix;
    assert line[|line| - |WordEnd|..] == WordEnd;
    assert line[|prefix|..|line| - |WordEnd|] == b64;
    Base64.DecodeEncode(Utf8.Encode(subject));
    Utf8.DecodeEncode(subject);
  }
}
