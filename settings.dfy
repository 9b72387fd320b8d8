/**
 * The application settings and the two database connection strings derived from them.
 * Field values are taken as given (loading them from the environment or `.env` is not modelled).
 */
module Settings {
  import opened Wrappers
  import UrlQuote

  /** The fields of `Settings`; an optional field left unset is `None`. */
  datatype Settings = Settings(
    env: string,                          // "local" | "docker"
    appName: string,
    postgresUser: string,
    postgresPassword: string,
    postgresDb: string,
    postgresHostLocal: Option<string>,
    postgresPortLocal: Option<int>,
    postgresHostDocker: Option<string>,
    postgresPortDocker: Option<int>,
    sqlEcho: bool,
    sqlPoolSize: int,
    sqlMaxOverflow: int,
    sqlPoolPrePing: bool)

  /** The settings object built from the three required fields, every other field at its default. */
  function WithDefaults(user: string, password: string, db: string): (s: Settings)
    ensures s.postgresUser == user && s.postgresPassword == password && s.postgresDb == db
    ensures s.env == "local" && s.appName == "hitalent"
    ensures s.postgresHostLocal == None && s.postgresPortLocal == None
    ensures s.postgresHostDocker == None && s.postgresPortDocker == None
    ensures !s.sqlEcho && s.sqlPoolSize == 5 && s.sqlMaxOverflow == 10 && s.sqlPoolPrePing
  {
    Settings("local", "hitalent", user, password, db, None, None, None, None, false, 5, 10, true)
  }

  const DefaultDockerHost: string := "db"
  const DefaultLocalHost: string := "127.0.0.1"
  const DefaultPort: int := 5432

  /** Python's `x or default` on an optional string: the default for `None` and for `""`. */
  function StringOr(x: Option<string>, default: string): (r: string)
    ensures x.Some? && x.value != [] ==> r == x.value
    ensures x.None? || x.value == [] ==> r == default
  {
    match x
    case Some(v) => if v != [] then v else default
    case None => default
  }

  /** Python's `int(x or default)` on an optional integer: the default for `None` and for `0`. */
  function IntOr(x: Option<int>, default: int): (r: int)
    ensures x.Some? && x.value != 0 ==> r == x.value
    ensures x.None? || x.value == 0 ==> r == default
  {
    match x
    case Some(v) => if v != 0 then v else default
    case None => default
  }

  /** `postgres_host`: the configured host of the current mode when it is set and non-empty,
      else that mode's default ("db" in docker mode, "127.0.0.1" otherwise). Never empty. */
  function PostgresHost(s: Settings): (host: string)
    ensures host != []
    ensures s.env == "docker" ==>
      host == (if s.postgresHostDocker.Some? && s.postgresHostDocker.value != [] then s.postgresHostDocker.value else "db")
    ensures s.env != "docker" ==>
      host == (if s.postgresHostLocal.Some? && s.postgresHostLocal.value != [] then s.postgresHostLocal.value else "127.0.0.1")
  {
    if s.env == "docker" then StringOr(s.postgresHostDocker, DefaultDockerHost)
    else StringOr(s.postgresHostLocal, DefaultLocalHost)
  }

  /** `postgres_port`: the configured port of the current mode, or 5432 when that port is
      unset or 0. Never 0. */
  function PostgresPort(s: Settings): (port: int)
    ensures port != 0
    ensures s.env == "docker" ==>
      port == (if s.postgresPortDocker.Some? && s.postgresPortDocker.value != 0 then s.postgresPortDocker.value else 5432)
    ensures s.env != "docker" ==>
      port == (if s.postgresPortLocal.Some? && s.postgresPortLocal.value != 0 then s.postgresPortLocal.value else 5432)
  {
    if s.env == "docker" then IntOr(s.postgresPortDocker, DefaultPort)
    else IntOr(s.postgresPortLocal, DefaultPort)
  }

  // ---------------------------------------------------------------- decimal text of a port

  predicate IsDigit(c: char) { '0' <= c <= '9' }

  function NatDigits(n: nat): (r: string)
    ensures r != [] && forall i | 0 <= i < |r| :: IsDigit(r[i])
    ensures n == 0 <==> r == "0"
    ensures r[0] != '0' || r == "0"
    decreases n
  {
    var d := ['0' + (n % 10) as char];
    if n < 10 then d else NatDigits(n / 10) + d
  }

  /** `str(n)` for a Python int: decimal digits, with a leading `-` when negative. */
  function DecimalString(n: int): (r: string)
    ensures r != []
    ensures forall i | 0 <= i < |r| :: IsDigit(r[i]) || (i == 0 && r[i] == '-' && n < 0)
    ensures 0 <= n ==> |r| == 1 || r[0] != '0'
    ensures n < 0 ==> r[0] == '-' && |r| >= 2 && r[1] != '0'
  {
    if n < 0 then "-" + NatDigits(-n) else NatDigits(n)
  }

  function DigitsValue(s: string): (v: nat)
    requires forall i | 0 <= i < |s| :: IsDigit(s[i])
  {
    if s == [] then 0
    else
      var last := s[|s| - 1];
      assert IsDigit(last);
      DigitsValue(s[..|s| - 1]) * 10 + (last as int - '0' as int)
  }

  /** `int(s)` for text of the form `DecimalString` produces. */
  function ParseDecimal(s: string): (r: Option<int>)
  {
    if s == [] then None
    else if s[0] == '-' then
      if 2 <= |s| && forall i | 1 <= i < |s| :: IsDigit(s[i]) then Some(0 - DigitsValue(s[1..]) as int) else None
    else if forall i | 0 <= i < |s| :: IsDigit(s[i]) then Some(DigitsValue(s)) else None
  }

  lemma {:induction false} NatDigitsValue(n: nat)
    ensures DigitsValue(NatDigits(n)) == n
    decreases n
  {
    var r := NatDigits(n);
    if n >= 10 {
      NatDigitsValue(n / 10);
      assert r[..|r| - 1] == NatDigits(n / 10);
    }
  }

  /** The decimal text of a port reads back as the same number. */
  lemma DecimalRoundTrip(n: int)
    ensures ParseDecimal(DecimalString(n)) == Some(n)
  {
    if n < 0 {
      NatDigitsValue(-n);
      assert DecimalString(n)[1..] == NatDigits(-n);
    } else {
      NatDigitsValue(n);
    }
  }

  // ---------------------------------------------------------------- connection strings

  const SyncScheme: string := "postgresql+psycopg://"
  const AsyncScheme: string := "postgresql+asyncpg://"

  /** What follows the scheme in both DSNs: `user:password@host:port/db`, with the
      credentials quoted. */
  function Authority(s: Settings): (r: string)
  {
    UrlQuote.Quote(s.postgresUser) + ":" + UrlQuote.Quote(s.postgresPassword)
      + "@" + AuthorityHostPart(s)
  }

  /** `host:port/db`, what follows the `@` of a DSN. */
  function AuthorityHostPart(s: Settings): string
  {
    PostgresHost(s) + ":" + DecimalString(PostgresPort(s)) + "/" + s.postgresDb
  }

  /** `DATABASE_URL_SYNC`, the DSN for the migration tool: its credentials read back as
      exactly the configured user name and password, and what follows them is the
      configured host, port and database; the credentials themselves are escaped text, one
      `:` apart. */
  function DatabaseUrlSync(s: Settings): (url: string)
    ensures |url| > |SyncScheme| && url[..|SyncScheme|] == SyncScheme
    ensures DsnCredentials(url, SyncScheme) == Some((s.postgresUser, s.postgresPassword))
    ensures AfterAt(url) == PostgresHost(s) + ":" + DecimalString(PostgresPort(s)) + "/" + s.postgresDb
    ensures IsQuotedUserInfo(UserInfo(url, SyncScheme))
  {
    SchemesHoldNoAt();
    SchemePrefix(SyncScheme, Authority(s));
    QuotedUserInfo(SyncScheme, UrlQuote.Quote(s.postgresUser), UrlQuote.Quote(s.postgresPassword), AuthorityHostPart(s));
    AuthorityCredentialsRecoverable(s, SyncScheme);
    HostPartAfterCredentials(s, SyncScheme);
    SyncScheme + Authority(s)
  }

  /** `DATABASE_URL_ASYNC`, the DSN for the application: its credentials read back as
      exactly the configured user name and password, and what follows them is the
      configured host, port and database; the credentials themselves are escaped text, one
      `:` apart. */
  function DatabaseUrlAsync(s: Settings): (url: string)
    ensures |url| > |AsyncScheme| && url[..|AsyncScheme|] == AsyncScheme
    ensures DsnCredentials(url, AsyncScheme) == Some((s.postgresUser, s.postgresPassword))
    ensures AfterAt(url) == PostgresHost(s) + ":" + DecimalString(PostgresPort(s)) + "/" + s.postgresDb
    ensures IsQuotedUserInfo(UserInfo(url, AsyncScheme))
  {
    SchemesHoldNoAt();
    SchemePrefix(AsyncScheme, Authority(s));
    QuotedUserInfo(AsyncScheme, UrlQuote.Quote(s.postgresUser), UrlQuote.Quote(s.postgresPassword), AuthorityHostPart(s));
    AuthorityCredentialsRecoverable(s, AsyncScheme);
    HostPartAfterCredentials(s, AsyncScheme);
    AsyncScheme + Authority(s)
  }

  /** Neither scheme holds an `@`, so the first `@` of a DSN ends its credentials. */
  lemma SchemesHoldNoAt()
    ensures '@' !in SyncScheme && '@' !in AsyncScheme
  {
    assert forall i | 0 <= i < |SyncScheme| :: SyncScheme[i] != '@';
    assert forall i | 0 <= i < |AsyncScheme| :: AsyncScheme[i] != '@';
  }

  /** A scheme followed by a non-empty rest is a proper prefix of the URL. */
  lemma SchemePrefix(scheme: string, rest: string)
    requires rest != []
    ensures |scheme + rest| > |scheme| && (scheme + rest)[..|scheme|] == scheme
  {
  }

  /** `database_url_sync`, the lower-case alias. */
  function DatabaseUrlSyncAlias(s: Settings): (url: string)
    ensures url == DatabaseUrlSync(s)
  {
    DatabaseUrlSync(s)
  }

  /** `database_url_async`, the lower-case alias. */
  function DatabaseUrlAsyncAlias(s: Settings): (url: string)
    ensures url == DatabaseUrlAsync(s)
  {
    DatabaseUrlAsync(s)
  }

  /** The two DSNs are the same text after their schemes, and have equal-length schemes. */
  lemma DsnsDifferOnlyInScheme(s: Settings)
    ensures |SyncScheme| == |AsyncScheme|
    ensures |DatabaseUrlSync(s)| == |DatabaseUrlAsync(s)|
    ensures DatabaseUrlSync(s)[|SyncScheme|..] == DatabaseUrlAsync(s)[|AsyncScheme|..]
    ensures forall i | 0 <= i < |DatabaseUrlSync(s)| ::
      DatabaseUrlSync(s)[i] != DatabaseUrlAsync(s)[i] ==> i < |SyncScheme|
  {
    SameTail(SyncScheme, AsyncScheme, Authority(s));
  }

  /** Two texts with prefixes of one length and the same rest differ only in the prefix. */
  lemma SameTail(p1: string, p2: string, t: string)
    requires |p1| == |p2|
    ensures |p1 + t| == |p2 + t| && (p1 + t)[|p1|..] == (p2 + t)[|p2|..]
    ensures forall i | 0 <= i < |p1 + t| :: (p1 + t)[i] != (p2 + t)[i] ==> i < |p1|
  {
    assert (p1 + t)[|p1|..] == t && (p2 + t)[|p2|..] == t;
  }

  /** The position of the first `c` in `s`, or `|s|` when there is none. */
  function IndexOf(s: string, c: char): (i: nat)
    ensures i <= |s| && c !in s[..i]
    ensures i < |s| ==> s[i] == c
    ensures i == |s| <==> c !in s
  {
    if s == [] then 0 else if s[0] == c then 0 else 1 + IndexOf(s[1..], c)
  }

  lemma {:induction false} IndexOfAfterFree(x: string, c: char, y: string)
    requires c !in x
    ensures IndexOf(x + [c] + y, c) == |x|
  {
    if x != [] {
      IndexOfAfterFree(x[1..], c, y);
      assert (x + [c] + y)[1..] == x[1..] + [c] + y;
    }
  }

  /** Reads the credentials back out of a DSN: the text between the scheme and the first `@`,
      split at its first `:`, each half percent-decoded and then UTF-8 decoded. */
  function DsnCredentials(url: string, scheme: string): (r: Option<(string, string)>)
  {
    if |url| < |scheme| || url[..|scheme|] != scheme then None
    else AuthorityCredentials(url[|scheme|..])
  }

  /** The credentials at the head of the part of a DSN that follows its scheme. */
  function AuthorityCredentials(rest: string): (r: Option<(string, string)>)
  {
    var at := IndexOf(rest, '@');
    if at == |rest| then None
    else
      var userInfo := rest[..at];
      var colon := IndexOf(userInfo, ':');
      if colon == |userInfo| then None
      else
        match (UrlQuote.Unquote(userInfo[..colon]), UrlQuote.Unquote(userInfo[colon + 1..]))
        case (Some(u), Some(p)) =>
          (match (UrlQuote.Utf8Decode(u), UrlQuote.Utf8Decode(p))
           case (Some(user), Some(password)) => Some((user, password))
           case _ => None)
        case _ => None
  }

  lemma SchemeThenAuthority(scheme: string, rest: string)
    ensures DsnCredentials(scheme + rest, scheme) == AuthorityCredentials(rest)
  {
    assert (scheme + rest)[..|scheme|] == scheme;
    assert (scheme + rest)[|scheme|..] == rest;
  }

  /** With `:` and `@` absent from the quoted user name and `@` absent from the quoted
      password, the first `@` ends the credentials and the first `:` separates them. */
  lemma SplitCredentials(qu: string, qp: string, tail: string)
    requires ':' !in qu && '@' !in qu && '@' !in qp
    ensures AuthorityCredentials(qu + [':'] + qp + ['@'] + tail) ==
      match (UrlQuote.Unquote(qu), UrlQuote.Unquote(qp))
      case (Some(u), Some(p)) =>
        (match (UrlQuote.Utf8Decode(u), UrlQuote.Utf8Decode(p))
         case (Some(user), Some(password)) => Some((user, password))
         case _ => None)
      case _ => None
  {
    var userInfo := qu + [':'] + qp;
    assert '@' !in userInfo;
    IndexOfAfterFree(userInfo, '@', tail);
    assert (userInfo + ['@'] + tail)[..|userInfo|] == userInfo;
    IndexOfAfterFree(qu, ':', qp);
    assert userInfo[..|qu|] == qu && userInfo[|qu| + 1..] == qp;
  }

  /** Whatever the user name and password contain, exactly them are read back from the
      authority of either DSN: quoting keeps `:` and `@` out of them. */
  lemma AuthorityCredentialsRecoverable(s: Settings, scheme: string)
    ensures DsnCredentials(scheme + Authority(s), scheme) == Some((s.postgresUser, s.postgresPassword))
  {
    var qu, qp := UrlQuote.Quote(s.postgresUser), UrlQuote.Quote(s.postgresPassword);
    var tail := AuthorityHostPart(s);
    SchemeThenAuthority(scheme, Authority(s));
    SplitCredentials(qu, qp, tail);
    UrlQuote.QuoteRoundTrip(s.postgresUser);
    UrlQuote.QuoteRoundTrip(s.postgresPassword);
  }

  /** The text after the first `@` of a DSN, empty when it has none. */
  function AfterAt(url: string): string
  {
    var at := IndexOf(url, '@');
    if at < |url| then url[at + 1..] else []
  }

  /** Quoting keeps `@` out of the credentials, so the first `@` of a DSN is the one
      before `host:port/db`, whatever the host or the database name contain. */
  lemma HostPartAfterCredentials(s: Settings, scheme: string)
    requires '@' !in scheme
    ensures AfterAt(scheme + Authority(s)) == AuthorityHostPart(s)
  {
    AfterFirstAt(scheme, UrlQuote.Quote(s.postgresUser), UrlQuote.Quote(s.postgresPassword), AuthorityHostPart(s));
  }

  /** In `scheme user:password@tail` with no `@` before the one written, what follows
      the first `@` is `tail`. */
  lemma AfterFirstAt(scheme: string, user: string, password: string, tail: string)
    requires '@' !in scheme && '@' !in user && '@' !in password
    ensures AfterAt(scheme + (user + ":" + password + "@" + tail)) == tail
  {
    var head := scheme + user + ":" + password;
    assert '@' !in head;
    assert scheme + (user + ":" + password + "@" + tail) == head + ['@'] + tail;
    IndexOfAfterFree(head, '@', tail);
    assert (head + ['@'] + tail)[|head| + 1..] == tail;
  }

  /** The user information of a DSN: the text between its scheme and its first `@`. */
  function UserInfo(url: string, scheme: string): string
    requires |scheme| <= |url|
  {
    var rest := url[|scheme|..];
    rest[..IndexOf(rest, '@')]
  }

  /** Text made only of what `quote` writes: unreserved characters and `%`. */
  predicate IsQuotedText(t: string)
  {
    forall i | 0 <= i < |t| :: UrlQuote.IsQuotedChar(t[i])
  }

  /** `user:password` with both halves escaped: exactly one `:`, and nothing else that a URL
      parser would take for a delimiter. */
  predicate IsQuotedUserInfo(u: string)
  {
    var colon := IndexOf(u, ':');
    colon < |u| && IsQuotedText(u[..colon]) && IsQuotedText(u[colon + 1..])
  }

  /** Escaped credentials after a scheme free of `@` form the user information of the URL. */
  lemma QuotedUserInfo(scheme: string, user: string, password: string, tail: string)
    requires '@' !in scheme && IsQuotedText(user) && IsQuotedText(password)
    ensures IsQuotedUserInfo(UserInfo(scheme + (user + ":" + password + "@" + tail), scheme))
  {
    var url := scheme + (user + ":" + password + "@" + tail);
    var info := user + [':'] + password;
    assert '@' !in info by {
      forall i | 0 <= i < |info| ensures info[i] != '@' {
        if i < |user| { assert info[i] == user[i]; }
        else if i > |user| { assert info[i] == password[i - |user| - 1]; }
      }
    }
    assert ':' !in user by {
      forall i | 0 <= i < |user| ensures user[i] != ':' {
        assert UrlQuote.IsQuotedChar(user[i]);
      }
    }
    assert url[|scheme|..] == info + ['@'] + tail;
    IndexOfAfterFree(info, '@', tail);
    assert (info + ['@'] + tail)[..|info|] == info;
    IndexOfAfterFree(user, ':', password);
    assert info[..|user|] == user && info[|user| + 1..] == password;
  }

  /** With every optional field at its default, the DSNs point at 127.0.0.1:5432. */
  lemma DefaultAuthority(user: string, password: string, db: string)
    ensures Authority(WithDefaults(user, password, db)) ==
      UrlQuote.Quote(user) + ":" + UrlQuote.Quote(password) + "@" + "127.0.0.1:5432/" + db
  {
    DefaultHostPart(WithDefaults(user, password, db));
  }

  lemma DefaultHostPart(s: Settings)
    requires s.env == "local" && s.postgresHostLocal == None && s.postgresPortLocal == None
    ensures AuthorityHostPart(s) == "127.0.0.1:5432/" + s.postgresDb
  {
    assert PostgresHost(s) == "127.0.0.1";
    assert PostgresPort(s) == 5432;
    assert NatDigits(5) == "5";
    assert NatDigits(54) == "54";
    assert NatDigits(543) == "543";
    assert NatDigits(5432) == "5432";
  }

}
