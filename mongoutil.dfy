/**
 * Package mongoutil: the MongoDB connection string built from the settings
 * (`buildMongoURI`) and the retry decision for a failed operation (`shouldRetry`).
 */
module MongoUtil {
  import Strs
  import Strconv
  import Fmt
  import Wrappers

  const DefaultMaxPoolSize: int := 100
  const DefaultMaxRetry: int := 3

  /** The settings `buildMongoURI` reads. */
  datatype Config = Config(
    uri: string,
    address: seq<string>,
    database: string,
    username: string,
    password: string,
    maxPoolSize: int,
    maxRetry: int)

  /** `%s:%s@`, the credential part. */
  const CredentialsFormat: Fmt.Format := Fmt.VerbS(Fmt.Text(":", Fmt.VerbS(Fmt.Text("@", Fmt.End))))

  /** `mongodb://%s%s/%s?maxPoolSize=%d`. */
  const MongoURIFormat: Fmt.Format :=
    Fmt.Text("mongodb://", Fmt.VerbS(Fmt.VerbS(Fmt.Text("/", Fmt.VerbS(Fmt.Text("?maxPoolSize=", Fmt.VerbD(Fmt.End)))))))

  /** The credential part: `user:password@` when both are set, nothing otherwise. */
  function Credentials(config: Config): string
  {
    if config.username != "" && config.password != "" then
      Fmt.Sprintf(CredentialsFormat, [Fmt.S(config.username), Fmt.S(config.password)])
    else ""
  }

  /** `buildMongoURI`. */
  function BuildMongoURI(config: Config): string
  {
    Fmt.Sprintf(MongoURIFormat, [Fmt.S(Credentials(config)), Fmt.S(Strs.Join(config.address, ",")),
      Fmt.S(config.database), Fmt.D(config.maxPoolSize)])
  }

  /** Both credentials or none: a user name without a password (or the reverse) is dropped. */
  lemma CredentialsLayout(config: Config)
    ensures config.username != "" && config.password != "" ==>
      Credentials(config) == config.username + (":" + (config.password + "@"))
    ensures config.username == "" || config.password == "" ==> Credentials(config) == ""
  {
    var a := [Fmt.S(config.username), Fmt.S(config.password)];
    var f := CredentialsFormat;
    assert Fmt.Sprintf(f.next.next.next.next, a[2..]) == "";
    assert Fmt.Sprintf(f.next.next.next, a[2..]) == "@";
    assert a[1..][1..] == a[2..];
    assert Fmt.Sprintf(f.next.next, a[1..]) == config.password + "@";
    assert Fmt.Sprintf(f.next, a[1..]) == ":" + (config.password + "@");
    assert a[0..] == a;
  }

  /** The connection string written out: scheme, credentials, hosts, database, pool size. */
  lemma BuildMongoURILayout(config: Config)
    ensures BuildMongoURI(config) ==
      "mongodb://" + (Credentials(config) + (Strs.Join(config.address, ",") + ("/" + (config.database +
      ("?maxPoolSize=" + Strconv.Itoa(config.maxPoolSize))))))
  {
    var creds := Credentials(config);
    var hosts := Strs.Join(config.address, ",");
    var a := [Fmt.S(creds), Fmt.S(hosts), Fmt.S(config.database), Fmt.D(config.maxPoolSize)];
    var f := MongoURIFormat;
    var n := Strconv.Itoa(config.maxPoolSize);
    assert Fmt.Sprintf(f.next.next.next.next.next.next.next, a[4..]) == "";
    assert n + "" == n;
    assert a[3..][1..] == a[4..];
    assert Fmt.Sprintf(f.next.next.next.next.next.next, a[3..]) == n;
    assert Fmt.Sprintf(f.next.next.next.next.next, a[3..]) == "?maxPoolSize=" + n;
    assert a[2..][1..] == a[3..];
    assert Fmt.Sprintf(f.next.next.next.next, a[2..]) == config.database + ("?maxPoolSize=" + n);
    assert Fmt.Sprintf(f.next.next.next, a[2..]) == "/" + (config.database + ("?maxPoolSize=" + n));
    assert a[1..][1..] == a[2..];
    assert Fmt.Sprintf(f.next.next, a[1..]) == hosts + ("/" + (config.database + ("?maxPoolSize=" + n)));
    assert a[0..][1..] == a[1..];
    assert Fmt.Sprintf(f.next, a[0..]) == creds + (hosts + ("/" + (config.database + ("?maxPoolSize=" + n))));
    assert a[0..] == a;
  }

  /** The pool size reads back from the end of the connection string, after the last `=`. */
  lemma PoolSizeRoundTrip(config: Config)
    requires Strconv.MinInt64 <= config.maxPoolSize <= Strconv.MaxInt64
    ensures Strconv.Atoi(Strs.LastSegment(BuildMongoURI(config), '=')) == Wrappers.Success(config.maxPoolSize)
  {
    BuildMongoURILayout(config);
    var n := Strconv.Itoa(config.maxPoolSize);
    var head := "mongodb://" + (Credentials(config) + (Strs.Join(config.address, ",") + ("/" + (config.database +
      "?maxPoolSize"))));
    assert BuildMongoURI(config) == head + ['='] + n;
    Strconv.ItoaChars(config.maxPoolSize, '=');
    Strs.LastSegmentAfterSep(head, '=', n);
    Strconv.AtoiItoa(config.maxPoolSize);
  }

  /** The errors the driver reports, as far as `shouldRetry` tells them apart. */
  datatype DriverError =
    | NoError                   // nil
    | CommandError(code: int)   // mongo.CommandError
    | OtherError(text: string)  // any other error

  /** `shouldRetry`: never once the context is done; not for authorisation failures (codes 13 and 18). */
  function ShouldRetry(ctxDone: bool, err: DriverError): (r: bool)
    ensures ctxDone ==> !r
    ensures !ctxDone && err.CommandError? ==> (r <==> err.code != 13 && err.code != 18)
    ensures !ctxDone && !err.CommandError? ==> r
  {
    if ctxDone then false
    else match err
      case CommandError(code) => code != 13 && code != 18
      case _ => true
  }
}
