/** The server's message of the day and periodic broadcast messages, with
    their placeholder interpolation. */
module Messages {
  import opened Wrappers
  import opened Strings

  /** The severities a message can carry; the model never inspects them. */
  datatype MessageSeverity = Information | Warning | Error

  /** A configured message; `None` stands for a null text. */
  datatype MessageWithSeverity = MessageWithSeverity(severity: MessageSeverity, message: Option<string>)

  /** The configuration and system values the placeholders stand for. */
  datatype ServerValues = ServerValues(serverName: string, discordInvite: string, shardName: string, onlineUsers: int)

  const ServerNameToken := "%ServerName%"
  const DiscordInviteToken := "%DiscordInvite%"
  const ShardNameToken := "%ShardName%"
  const OnlineUsersToken := "%OnlineUsers%"

  /** The message of the day used when none is configured:
      `Welcome to %ServerName% "%ShardName%", Current Online Users: %OnlineUsers%`. */
  const DefaultMessageOfTheDay := MessageWithSeverity(Information,
    Some("Welcome to " + ServerNameToken + " \"" + ShardNameToken + "\", Current Online Users: " + OnlineUsersToken))

  /** Text that mentions none of the placeholders. */
  predicate NoPlaceholders(s: string) {
    && !Contains(s, ServerNameToken)
    && !Contains(s, DiscordInviteToken)
    && !Contains(s, ShardNameToken)
    && !Contains(s, OnlineUsersToken)
  }

  /** The four substitutions after the first, applied in their fixed order. */
  function AfterServerName(s: string, values: ServerValues): string {
    Replace(Replace(Replace(s, DiscordInviteToken, values.discordInvite),
      ShardNameToken, values.shardName), OnlineUsersToken, IntToString(values.onlineUsers))
  }

  /** Substitutes the placeholders in the order server name, Discord
      invite, shard name, online users; a null text stays null. */
  function InterpolateString(input: Option<string>, values: ServerValues): (r: Option<string>)
    ensures r.None? <==> input.None?
  {
    match input
    case None => None
    case Some(s) => Some(AfterServerName(Replace(s, ServerNameToken, values.serverName), values))
  }

  /** Text without placeholders is returned unchanged. */
  lemma InterpolateNoPlaceholders(s: string, values: ServerValues)
    requires NoPlaceholders(s)
    ensures InterpolateString(Some(s), values) == Some(s)
  {
    ReplaceAbsent(s, ServerNameToken, values.serverName);
    ReplaceAbsent(s, DiscordInviteToken, values.discordInvite);
    ReplaceAbsent(s, ShardNameToken, values.shardName);
    ReplaceAbsent(s, OnlineUsersToken, IntToString(values.onlineUsers));
  }

  /** Every occurrence of the server-name placeholder is replaced: text
      made of pieces without `%`, separated by the placeholder, comes out
      with the server name between the pieces (a name without `%` leaves
      nothing for the later substitutions). */
  lemma InterpolateEveryServerName(xs: seq<string>, values: ServerValues)
    requires |xs| >= 1 && '%' !in values.serverName
    requires forall i :: 0 <= i < |xs| ==> '%' !in xs[i]
    ensures InterpolateString(Some(JoinWith(xs, ServerNameToken)), values) == Some(JoinWith(xs, values.serverName))
  {
    var t := JoinWith(xs, values.serverName);
    ReplaceEvery(xs, ServerNameToken, values.serverName);
    JoinWithWithout(xs, values.serverName, '%');
    NoOccurrence(t, DiscordInviteToken);
    NoOccurrence(t, ShardNameToken);
    NoOccurrence(t, OnlineUsersToken);
  }

  /** The server name placeholder becomes the server name, which is itself
      subject to the later substitutions. */
  lemma InterpolateServerNameToken(values: ServerValues)
    ensures InterpolateString(Some(ServerNameToken), values) == Some(AfterServerName(values.serverName, values))
  {
    ReplaceWhole(ServerNameToken, values.serverName);
  }

  /** A later placeholder inside an earlier value is substituted: a server
      name of "%ShardName%" comes out as the shard name. */
  lemma LaterPlaceholderInValue(values: ServerValues)
    requires values.serverName == ShardNameToken
    requires !Contains(values.shardName, OnlineUsersToken)
    ensures InterpolateString(Some(ServerNameToken), values) == Some(values.shardName)
  {
    InterpolateServerNameToken(values);
    ReplaceAbsent(ShardNameToken, DiscordInviteToken, values.discordInvite);
    ReplaceWhole(ShardNameToken, values.shardName);
    ReplaceAbsent(values.shardName, OnlineUsersToken, IntToString(values.onlineUsers));
  }

  /** An earlier placeholder inside a later value is not: a shard name of
      "%ServerName%" comes out literally. */
  lemma EarlierPlaceholderInValue(values: ServerValues)
    requires values.shardName == ServerNameToken
    ensures InterpolateString(Some(ShardNameToken), values) == Some(ServerNameToken)
  {
    ReplaceAbsent(ShardNameToken, ServerNameToken, values.serverName);
    ReplaceAbsent(ShardNameToken, DiscordInviteToken, values.discordInvite);
    ReplaceWhole(ShardNameToken, values.shardName);
    ReplaceAbsent(ServerNameToken, OnlineUsersToken, IntToString(values.onlineUsers));
  }

  /** The message of the day keeps its severity; only its text is
      interpolated. */
  function GetMessageOfTheDay(messageOfTheDay: MessageWithSeverity, values: ServerValues): (r: MessageWithSeverity)
    ensures r.severity == messageOfTheDay.severity
    ensures r.message == InterpolateString(messageOfTheDay.message, values)
    ensures r.message.None? <==> messageOfTheDay.message.None?
    ensures NoPlaceholders(messageOfTheDay.message.GetOr("")) ==> r.message == messageOfTheDay.message
  {
    var r := MessageWithSeverity(messageOfTheDay.severity, InterpolateString(messageOfTheDay.message, values));
    assert NoPlaceholders(messageOfTheDay.message.GetOr("")) ==> r.message == messageOfTheDay.message by {
      if messageOfTheDay.message.Some? && NoPlaceholders(messageOfTheDay.message.value) {
        InterpolateNoPlaceholders(messageOfTheDay.message.value, values);
      }
    }
    r
  }

  /** The default message of the day holds the server-name, shard-name and
      online-users placeholders, so its text is interpolated rather than
      shown as configured. */
  lemma DefaultMessageMentions()
    ensures DefaultMessageOfTheDay.message.Some?
    ensures var t := DefaultMessageOfTheDay.message.value;
      Contains(t, ServerNameToken) && Contains(t, ShardNameToken) && Contains(t, OnlineUsersToken)
    ensures !NoPlaceholders(DefaultMessageOfTheDay.message.value)
  {
    var a, b, c := "Welcome to ", " \"", "\", Current Online Users: ";
    var t := DefaultMessageOfTheDay.message.value;
    assert OccursAt(t, ServerNameToken, |a|);
    assert OccursAt(t, ShardNameToken, |a + ServerNameToken + b|);
    assert OccursAt(t, OnlineUsersToken, |a + ServerNameToken + b + ShardNameToken + c|);
  }

  /** A remainder is determined by any quotient that leaves it in range. */
  lemma ModUnique(x: int, d: int, q: int, r: int)
    requires d > 0 && 0 <= r < d && x == d * q + r
    ensures x % d == r
  {
    var k := q - x / d;
    assert d * k == x % d - r;
  }

  /** C#'s `%` on `int`: the remainder truncated toward zero, which takes
      the sign of the dividend. Against Dafny's Euclidean `%`, it agrees
      for a non-negative dividend and is off by the divisor for a negative
      one that is not a multiple. */
  function CSharpRemainder(n: int, d: int): (r: int)
    requires d > 0
    ensures -d < r < d
    ensures n >= 0 ==> r == n % d
    ensures n < 0 ==> r <= 0 && (r == 0 <==> n % d == 0) && (r != 0 ==> r == n % d - d)
  {
    if n >= 0 then n % d
    else
      var q, r' := (-n) / d, (-n) % d;
      assert -n == d * q + r';
      assert r' == 0 ==> n % d == 0 by {
        if r' == 0 { ModUnique(n, d, -q, 0); }
      }
      assert r' != 0 ==> n % d == d - r' by {
        if r' != 0 { ModUnique(n, d, -q - 1, d - r'); }
      }
      -r'
  }

  /** The outcome of picking a periodic message. */
  datatype NextMessage = NoMessages | Next(message: MessageWithSeverity) | IndexOutOfRange

  /** The periodic message for an execution number: none when none is
      configured, otherwise the entry at the C# remainder, interpolated; a
      negative remainder makes the array access throw, and a negative
      multiple of the count picks the first entry. */
  function GetNextPeriodicMessage(periodic: seq<MessageWithSeverity>, executionNumber: Int32, values: ServerValues)
    : (r: NextMessage)
    ensures r.NoMessages? <==> |periodic| == 0
    ensures |periodic| > 0 && executionNumber >= 0 ==>
      var m := periodic[executionNumber % |periodic|];
      r == Next(MessageWithSeverity(m.severity, InterpolateString(m.message, values)))
    ensures |periodic| > 0 && executionNumber < 0 && executionNumber % |periodic| == 0 ==>
      r == Next(MessageWithSeverity(periodic[0].severity, InterpolateString(periodic[0].message, values)))
    ensures r.IndexOutOfRange? <==> |periodic| > 0 && executionNumber < 0 && executionNumber % |periodic| != 0
  {
    var count := |periodic|;
    if count <= 0 then NoMessages
    else
      var index := CSharpRemainder(executionNumber, count);
      if index < 0 then IndexOutOfRange
      else
        var message := periodic[index];
        Next(MessageWithSeverity(message.severity, InterpolateString(message.message, values)))
  }

  /** Messages rotate with period equal to their number. */
  lemma PeriodicRotation(periodic: seq<MessageWithSeverity>, n: Int32, values: ServerValues)
    requires |periodic| > 0 && n >= 0 && n + |periodic| <= IntMax
    ensures GetNextPeriodicMessage(periodic, n, values) == GetNextPeriodicMessage(periodic, n + |periodic|, values)
  {
    var c := |periodic|;
    ModUnique(n + c, c, n / c + 1, n % c);
  }

  /** Execution numbers 0 .. count - 1 visit the messages in order. */
  lemma PeriodicInOrder(periodic: seq<MessageWithSeverity>, i: nat, values: ServerValues)
    requires i < |periodic| && i <= IntMax
    ensures GetNextPeriodicMessage(periodic, i, values)
         == Next(MessageWithSeverity(periodic[i].severity, InterpolateString(periodic[i].message, values)))
  {
    ModUnique(i, |periodic|, 0, i);
  }
}
