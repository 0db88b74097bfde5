/**
  * The text helpers of utils.js: the first message of a new forum post, which carries the
  * original message's text followed by an attribution (author mention, then posting date and
  * time), and `capitalize`. Locale-dependent date and time formatting and Unicode case mapping
  * are library behaviour and come in as function parameters.
  */
module PostText {
  import opened Discord

  /** `new Date(timestamp)` rendered by an `Intl.DateTimeFormat` in the runtime's default locale. */
  type Formatter = string -> string

  /** The platform's mention syntax for a user. */
  function Mention(userId: Snowflake): string
  {
    "<@" + userId + ">"
  }

  /** The author line opens with the bust-in-silhouette emoji. */
  const AuthorLabel: string := "\U{1F464} original author: "

  /** The date line opens with the three o'clock emoji. */
  const PostedLabel: string := "\U{1F552} originally posted on "

  const TimeSeparator: string := " at "

  function AuthorLine(authorId: Snowflake): string
  {
    AuthorLabel + Mention(authorId)
  }

  function PostedLine(date: string, time: string): string
  {
    PostedLabel + date + TimeSeparator + time
  }

  /** The first message of a forum post made from `message`: its content, then on the next line
      the author mention, then on the last line the formatted date and time it was posted. */
  function CreateFirstPostMessage(message: Message, formatDate: Formatter, formatTime: Formatter): (r: string)
    ensures message.content + "\n" <= r
  {
    message.content + "\n"
      + AuthorLine(message.author.id) + "\n"
      + PostedLine(formatDate(message.timestamp), formatTime(message.timestamp))
  }

  /** What a reader recovers from a first post: the original text, the mentioned author and the
      "<date> at <time>" text. */
  datatype Attribution = Attribution(content: string, authorId: Snowflake, postedOn: string)

  /** The index of the last line break of `s`, if any. */
  function LastNewline(s: string): (r: Option<nat>)
    ensures r.Some? ==> r.value < |s| && s[r.value] == '\n' && '\n' !in s[r.value + 1..]
    ensures r.None? ==> '\n' !in s
  {
    if s == [] then None
    else if s[|s| - 1] == '\n' then Some(|s| - 1)
    else
      var r := LastNewline(s[..|s| - 1]);
      assert r.Some? ==> s[r.value + 1..] == s[..|s| - 1][r.value + 1..] + [s[|s| - 1]];
      assert s == s[..|s| - 1] + [s[|s| - 1]];
      r
  }

  /** Splits text into everything before its last two line breaks, the line between them and
      the line after the last one. */
  function SplitLastTwoLines(text: string): Option<(string, string, string)>
  {
    match LastNewline(text)
    case None => None
    case Some(j) =>
      match LastNewline(text[..j])
      case None => None
      case Some(k) => Some((text[..k], text[k + 1..j], text[j + 1..]))
  }

  /** The author id of an author line. */
  function ParseAuthorLine(line: string): Option<Snowflake>
  {
    var opening := AuthorLabel + "<@";
    if opening <= line && |line| > |opening| && line[|line| - 1] == '>'
    then Some(line[|opening|..|line| - 1])
    else None
  }

  /** The "<date> at <time>" text of a date line. */
  function ParsePostedLine(line: string): Option<string>
  {
    if PostedLabel <= line then Some(line[|PostedLabel|..]) else None
  }

  /** Reads a first post back from its last two lines; the content is everything before them. */
  function ParseFirstPost(text: string): Option<Attribution>
  {
    match SplitLastTwoLines(text)
    case None => None
    case Some((content, authorLine, postedLine)) =>
      match (ParseAuthorLine(authorLine), ParsePostedLine(postedLine))
      case (Some(authorId), Some(postedOn)) => Some(Attribution(content, authorId, postedOn))
      case _ => None
  }

  /** A line break followed by text without one is the last line break. */
  lemma LastNewlineBefore(a: string, b: string)
    requires '\n' !in b
    ensures LastNewline(a + "\n" + b) == Some(|a|)
  {
    var s := a + "\n" + b;
    assert s[|a|] == '\n';
    assert s[|a| + 1..] == b;
  }

  /** Two single-line lines after any text are split off again whole. */
  lemma {:induction false} SplitLastTwoLinesOf(content: string, middle: string, last: string)
    requires '\n' !in middle && '\n' !in last
    ensures SplitLastTwoLines(content + "\n" + middle + "\n" + last) == Some((content, middle, last))
  {
    var text := content + "\n" + middle + "\n" + last;
    var j := |content| + 1 + |middle|;
    assert text == (content + "\n" + middle) + "\n" + last;
    LastNewlineBefore(content + "\n" + middle, last);
    assert text[..j] == content + "\n" + middle;
    LastNewlineBefore(content, middle);
    assert text[..|content|] == content;
    assert text[|content| + 1..j] == middle;
    assert text[j + 1..] == last;
    assert LastNewline(text) == Some(j);
    assert LastNewline(text[..j]) == Some(|content|);
    assert SplitLastTwoLines(text) == Some((text[..|content|], text[|content| + 1..j], text[j + 1..]));
  }

  lemma AuthorLineRoundTrip(authorId: Snowflake)
    ensures ParseAuthorLine(AuthorLine(authorId)) == Some(authorId)
    ensures '\n' !in authorId ==> '\n' !in AuthorLine(authorId)
  {
    var opening := AuthorLabel + "<@";
    var line := AuthorLine(authorId);
    assert line == opening + authorId + ">";
    assert line[|opening|..|line| - 1] == authorId;
    assert '\n' !in AuthorLabel;
  }

  lemma PostedLineRoundTrip(date: string, time: string)
    ensures ParsePostedLine(PostedLine(date, time)) == Some(date + TimeSeparator + time)
    ensures '\n' !in date && '\n' !in time ==> '\n' !in PostedLine(date, time)
  {
    var line := PostedLine(date, time);
    assert line == PostedLabel + (date + TimeSeparator + time);
    assert '\n' !in PostedLabel && '\n' !in TimeSeparator;
  }

  /** The first post keeps the original text whole, even across line breaks, and names its author
      and posting time: reading it back recovers all three, provided the author id and the
      formatted date and time are single-line. */
  lemma FirstPostRoundTrip(message: Message, formatDate: Formatter, formatTime: Formatter)
    requires '\n' !in message.author.id
    requires '\n' !in formatDate(message.timestamp) && '\n' !in formatTime(message.timestamp)
    ensures ParseFirstPost(CreateFirstPostMessage(message, formatDate, formatTime))
      == Some(Attribution(message.content, message.author.id,
                          formatDate(message.timestamp) + TimeSeparator + formatTime(message.timestamp)))
  {
    var date, time := formatDate(message.timestamp), formatTime(message.timestamp);
    AuthorLineRoundTrip(message.author.id);
    PostedLineRoundTrip(date, time);
    SplitLastTwoLinesOf(message.content, AuthorLine(message.author.id), PostedLine(date, time));
  }

  /** `String.prototype.toUpperCase`: every character replaced by its full upper-case mapping,
      which may be longer than one character. */
  function ToUpperCase(s: string, upper: char -> string): string
  {
    if s == [] then "" else upper(s[0]) + ToUpperCase(s[1..], upper)
  }

  /** `String.prototype.charAt`: the character at `i` as a string, or "" past the end. */
  function CharAt(s: string, i: nat): string
  {
    if i < |s| then [s[i]] else ""
  }

  /** `String.prototype.slice` with one non-negative argument. */
  function Slice(s: string, start: nat): string
  {
    if start <= |s| then s[start..] else ""
  }

  /** The first character upper-cased and the rest unchanged; "" stays "". */
  function Capitalize(str: string, upper: char -> string): (r: string)
    ensures str == "" ==> r == ""
    ensures str != "" ==> r == upper(str[0]) + str[1..]
  {
    assert str != "" ==> ToUpperCase(CharAt(str, 0), upper) == upper(str[0]) + ToUpperCase([], upper);
    ToUpperCase(CharAt(str, 0), upper) + Slice(str, 1)
  }

  /** When upper-casing maps every character to exactly one character and is idempotent (as it
      is on ASCII letters), capitalizing twice is capitalizing once. Mappings to several
      characters, such as 'ß' to "SS", are outside this lemma. */
  lemma CapitalizeIdempotent(str: string, upper: char -> string)
    requires forall c :: |upper(c)| == 1 && upper(upper(c)[0]) == upper(c)
    ensures Capitalize(Capitalize(str, upper), upper) == Capitalize(str, upper)
  {
  }
}
