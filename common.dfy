/** Shared vocabulary of the mail mirror: optional values, the message status
    enumeration, the message transfer record, the log, and the byte-string
    helpers that stand for PHP's string functions.

    Strings follow PHP: a string is a sequence of bytes, and each Dafny `char`
    of a `string` here stands for one byte. Non-ASCII literals of the code are
    therefore written as their UTF-8 bytes (`\U{C5}\U{82}` is the letter "ł"). */
module Common {

  datatype Option<T> = None | Some(value: T)

  /** The value of a call that either returns or throws. */
  datatype Result<T, E> = Success(value: T) | Failure(error: E)

  /** The outcome of a call that returns nothing or throws. */
  datatype Outcome<E> = Pass | Fail(error: E)

  /** How a request handler ends abnormally: an exception with its message,
      which a `catch (\Exception)` can catch, or an engine error (a TypeError,
      a call on null) that only a PHP `finally` sees. */
  datatype Abort = Thrown(message: string) | Fatal(message: string)

  /** The message status enumeration, a string-backed enum. */
  datatype Status = Read | Unread | Flagged | Deleted | Answered

  /** The backing value of each status case, as stored in the status column. */
  function StatusValue(s: Status): string
  {
    match s
    case Read => "read"
    case Unread => "unread"
    case Flagged => "flagged"
    case Deleted => "deleted"
    case Answered => "answered"
  }

  /** `Status::tryFrom`: the case whose backing value is `v`, if any. */
  function StatusFrom(v: string): (r: Option<Status>)
    ensures r.Some? ==> StatusValue(r.value) == v
    ensures r.None? ==> forall s: Status :: StatusValue(s) != v
  {
    if v == "read" then Some(Read)
    else if v == "unread" then Some(Unread)
    else if v == "flagged" then Some(Flagged)
    else if v == "deleted" then Some(Deleted)
    else if v == "answered" then Some(Answered)
    else None
  }

  /** Reading back a stored status value gives the status that was stored. */
  lemma StatusRoundTrip(s: Status)
    ensures StatusFrom(StatusValue(s)) == Some(s)
  {
  }

  /** A point in time, kept only in the two formatted forms the code uses:
      `stored` is 'Y-m-d H:i:s' (the date column), `minute` is 'Y-m-d H:i'
      (the attribution line of a reply). Parsing and the clock are not modelled. */
  datatype DateTime = DateTime(stored: string, minute: string)

  /** The message transfer record. It has no message-type field. */
  datatype MessageDto = MessageDto(
    uid: int,
    subject: string,
    sender: string,
    date: DateTime,
    content: string,
    status: Status,
    folderId: int,
    messageId: Option<string>)

  /** The mail account settings. */
  datatype Account = Account(
    username: string,
    password: string,
    senderName: string,
    imapHost: string,
    imapPort: int,
    imapEncryption: string,
    smtpHost: string,
    smtpPort: int,
    smtpEncryption: string,
    websiteId: int)

  /** A file attached to an outgoing mail: its bytes, file name and MIME type. */
  datatype OutgoingAttachment = OutgoingAttachment(content: string, filename: string, mime: string)

  /** PHP's truthiness of a string: only "" and "0" are false. */
  predicate Truthy(s: string)
  {
    s != "" && s != "0"
  }

  /** A line written to the application log. */
  datatype LogEntry = Info(text: string) | Warning(text: string) | Error(text: string)

  /** The application log, which only grows. */
  class Logger {
    var entries: seq<LogEntry>

    constructor ()
      ensures entries == []
    {
      entries := [];
    }

    method Log(e: LogEntry)
      modifies this
      ensures entries == old(entries) + [e]
    {
      entries := entries + [e];
    }
  }

  // ---------------------------------------------------------------------
  // Byte-string helpers (ASCII case folding, as PHP 8's strtolower,
  // strtoupper and stripos do)

  function LowerChar(c: char): char
  {
    if 'A' <= c <= 'Z' then (c as int + 32) as char else c
  }

  function UpperChar(c: char): char
  {
    if 'a' <= c <= 'z' then (c as int - 32) as char else c
  }

  /** `strtolower`: only the 26 ASCII capitals change. */
  function Lower(s: string): (r: string)
    ensures |r| == |s|
    ensures forall i :: 0 <= i < |s| ==> r[i] == LowerChar(s[i])
  {
    seq(|s|, i requires 0 <= i < |s| => LowerChar(s[i]))
  }

  /** `strtoupper`: only the 26 ASCII small letters change. */
  function Upper(s: string): (r: string)
    ensures |r| == |s|
    ensures forall i :: 0 <= i < |s| ==> r[i] == UpperChar(s[i])
  {
    seq(|s|, i requires 0 <= i < |s| => UpperChar(s[i]))
  }

  /** A string with no ASCII capital is its own lower-case form. */
  lemma LowerIdentity(t: string)
    requires forall i :: 0 <= i < |t| ==> !('A' <= t[i] <= 'Z')
    ensures Lower(t) == t
  {
  }

  predicate IsPrefix(p: string, s: string)
  {
    |p| <= |s| && s[..|p|] == p
  }

  /** `t` occurs in `s` starting at offset `i`. */
  predicate OccursAt(s: string, t: string, i: int)
  {
    0 <= i <= |s| - |t| && s[i..i + |t|] == t
  }

  /** `t` occurs in `s` at some offset. */
  predicate Contains(s: string, t: string)
  {
    exists i | 0 <= i <= |s| - |t| :: OccursAt(s, t, i)
  }

  /** `stripos(s, p) === 0`. */
  predicate StartsWithCI(s: string, p: string)
  {
    IsPrefix(Lower(p), Lower(s))
  }

  /** `stripos(s, t) !== false`. */
  predicate ContainsCI(s: string, t: string)
  {
    Contains(Lower(s), Lower(t))
  }

  /** `substr(s, 0, n)` for n >= 0. */
  function Prefix(s: string, n: nat): (r: string)
    ensures |r| <= n && IsPrefix(r, s)
    ensures |s| <= n ==> r == s
    ensures |s| > n ==> r == s[..n]
  {
    if |s| <= n then s else s[..n]
  }

  /** `str_replace(c, t, s)` for a one-byte search string `c`: every other
      character is kept, and nothing but kept characters and characters of
      `t` appears in the result. */
  function ReplaceChar(s: string, c: char, t: string): (r: string)
    ensures c !in s ==> r == s
    ensures forall x :: x in s && x != c ==> x in r
    ensures forall x :: x in r ==> (x in s && x != c) || x in t
    ensures c in s ==> forall x :: x in t ==> x in r
  {
    if s == [] then []
    else (if s[0] == c then t else [s[0]]) + ReplaceChar(s[1..], c, t)
  }
}
