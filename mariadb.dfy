/**
 * The string handling of the MariaDB connection factory: the statement
 * processor that rewrites the schema's quote characters, the JDBC URL the
 * factory hands to the connection pool, and the port it uses by default.
 */
module MariaDb {
  import opened Wrappers

  /** The port used when the configured address names none. */
  const DefaultPort: string := "3306"

  /** Every JDBC URL this factory builds starts with this scheme and authority marker. */
  const JdbcPrefix: string := "jdbc:mariadb://"

  /** The character the schema files quote identifiers with. */
  const Apostrophe: char := '\''

  /** The character MariaDB quotes identifiers with. */
  const Backtick: char := '`'

  /** One character of the statement processor: an apostrophe becomes a backtick. */
  function ReplaceQuote(c: char): char
  {
    if c == Apostrophe then Backtick else c
  }

  /** The statement processor: `s.replace('\'', '`')`, one character at a time. */
  function StatementProcessor(s: string): (r: string)
    ensures |r| == |s|
  {
    if s == [] then [] else [ReplaceQuote(s[0])] + StatementProcessor(s[1..])
  }

  /** The processor keeps the length and rewrites each position on its own. */
  lemma {:induction false} StatementProcessorAt(s: string)
    ensures |StatementProcessor(s)| == |s|
    ensures forall i :: 0 <= i < |s| ==>
      StatementProcessor(s)[i] == (if s[i] == Apostrophe then Backtick else s[i])
  {
    if s != [] {
      StatementProcessorAt(s[1..]);
      forall i | 0 <= i < |s|
        ensures StatementProcessor(s)[i] == (if s[i] == Apostrophe then Backtick else s[i])
      {
        if i > 0 {
          assert StatementProcessor(s)[i] == StatementProcessor(s[1..])[i - 1];
        }
      }
    }
  }

  /** No apostrophe survives the processor. */
  lemma StatementProcessorRemovesApostrophes(s: string)
    ensures Apostrophe !in StatementProcessor(s)
  {
  }

  /** A backtick in the output stands where the input had an apostrophe or a backtick,
      and every other output character is the input character itself. */
  lemma StatementProcessorPreimage(s: string)
    ensures forall i :: 0 <= i < |s| ==>
      (StatementProcessor(s)[i] == Backtick <==> s[i] == Apostrophe || s[i] == Backtick)
    ensures forall i :: 0 <= i < |s| && StatementProcessor(s)[i] != Backtick ==>
      StatementProcessor(s)[i] == s[i]
  {
  }

  /** Applying the processor twice is the same as applying it once. */
  lemma StatementProcessorIdempotent(s: string)
    ensures StatementProcessor(StatementProcessor(s)) == StatementProcessor(s)
  {
  }

  /** The URL `configureDatabase` gives the pool for an address, port and database. */
  function JdbcUrl(address: string, port: string, databaseName: string): (url: string)
    ensures |url| == |JdbcPrefix| + |address| + 1 + |port| + 1 + |databaseName|
    ensures url[..|JdbcPrefix|] == JdbcPrefix
  {
    JdbcPrefix + address + ":" + port + "/" + databaseName
  }

  /** The part of `s` before the first `sep` and the part after it, if `sep` occurs. */
  function SplitAtFirst(s: string, sep: char): (r: Option<(string, string)>)
    ensures r.None? <==> sep !in s
    ensures r.Some? ==> sep !in r.value.0 && s == r.value.0 + [sep] + r.value.1
  {
    if s == [] then None
    else if s[0] == sep then Some(([], s[1..]))
    else match SplitAtFirst(s[1..], sep)
      case None => None
      case Some(p) => Some(([s[0]] + p.0, p.1))
  }

  /** Reads address, port and database name back out of a URL of the factory's shape. */
  function ParseJdbcUrl(url: string): Option<(string, string, string)>
  {
    if |url| < |JdbcPrefix| || url[..|JdbcPrefix|] != JdbcPrefix then None
    else match SplitAtFirst(url[|JdbcPrefix|..], ':')
      case None => None
      case Some(hostAndRest) =>
        match SplitAtFirst(hostAndRest.1, '/')
        case None => None
        case Some(portAndDb) => Some((hostAndRest.0, portAndDb.0, portAndDb.1))
  }

  /** If `s` is `a + [sep] + b` and `a` holds no `sep`, splitting at the first `sep` gives `a` and `b`. */
  lemma {:induction false} SplitAtFirstOf(a: string, sep: char, b: string)
    requires sep !in a
    ensures SplitAtFirst(a + [sep] + b, sep) == Some((a, b))
  {
    if a != [] {
      assert (a + [sep] + b)[0] == a[0];
      assert (a + [sep] + b)[1..] == a[1..] + [sep] + b;
      SplitAtFirstOf(a[1..], sep, b);
      assert [a[0]] + a[1..] == a;
    }
  }

  /** The URL determines its parts when the address holds no `:` and the port no `/`. */
  lemma JdbcUrlRoundTrip(address: string, port: string, databaseName: string)
    requires ':' !in address && '/' !in port
    ensures ParseJdbcUrl(JdbcUrl(address, port, databaseName)) == Some((address, port, databaseName))
  {
    var url := JdbcUrl(address, port, databaseName);
    assert url[|JdbcPrefix|..] == address + [':'] + (port + ['/'] + databaseName);
    SplitAtFirstOf(address, ':', port + ['/'] + databaseName);
    SplitAtFirstOf(port, '/', databaseName);
  }

  /** The default port is the decimal numeral of MariaDB's registered port 3306. */
  lemma DefaultPortIsMariaDbPort()
    ensures |DefaultPort| == 4 && forall i :: 0 <= i < |DefaultPort| ==> '0' <= DefaultPort[i] <= '9'
    ensures ((DefaultPort[0] as int - '0' as int) * 1000 + (DefaultPort[1] as int - '0' as int) * 100
           + (DefaultPort[2] as int - '0' as int) * 10 + (DefaultPort[3] as int - '0' as int)) == 3306
  {
  }
}
