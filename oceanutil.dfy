/**
 * Package oceanutil: the OceanBase connection settings, the DSN they are turned into
 * (`buildOceanURI`), the validation that fills in a missing DSN (`ValidateAndSetDefaults`)
 * and the bounded retry loop around the connection attempt (`initializeDBWithRetry`).
 * The database driver is an oracle: attempt `i` either yields a handle or fails.
 */
module OceanUtil {
  import opened Wrappers
  import Strconv
  import Errs
  import Fmt

  /** `oceanBaseURIFormat`: `%s:%s@tcp(%s:%d)/%s?charset=%s&parseTime=True&loc=Local`. */
  const OceanBaseURIFormat: Fmt.Format :=
    Fmt.VerbS(Fmt.Text(":", Fmt.VerbS(Fmt.Text("@tcp(", Fmt.VerbS(Fmt.Text(":", Fmt.VerbD(Fmt.Text(")/",
    Fmt.VerbS(Fmt.Text("?charset=", Fmt.VerbS(Fmt.Text("&parseTime=True&loc=Local", Fmt.End))))))))))))

  /** The formats `%s@%s#%s` and `%s@%s` of the two longer credential forms. */
  const TenantClusterFormat: Fmt.Format := Fmt.VerbS(Fmt.Text("@", Fmt.VerbS(Fmt.Text("#", Fmt.VerbS(Fmt.End)))))
  const TenantFormat: Fmt.Format := Fmt.VerbS(Fmt.Text("@", Fmt.VerbS(Fmt.End)))

  /** `Config`: the connection settings; `ValidateAndSetDefaults` fills in `dns` in place. */
  class Config {
    var dns: string
    var host: string
    var username: string
    var tenantName: string
    var clusterName: string
    var password: string
    var port: int
    var schemaName: string
    var dataType: string
    var charset: string
    var maxRetry: int

    constructor (dns0: string, host0: string, username0: string, tenantName0: string,
                 clusterName0: string, password0: string, port0: int, schemaName0: string,
                 dataType0: string, charset0: string, maxRetry0: int)
      ensures dns == dns0 && host == host0 && username == username0
      ensures tenantName == tenantName0 && clusterName == clusterName0 && password == password0
      ensures port == port0 && schemaName == schemaName0 && dataType == dataType0
      ensures charset == charset0 && maxRetry == maxRetry0
    {
      dns := dns0;
      host := host0;
      username := username0;
      tenantName := tenantName0;
      clusterName := clusterName0;
      password := password0;
      port := port0;
      schemaName := schemaName0;
      dataType := dataType0;
      charset := charset0;
      maxRetry := maxRetry0;
    }

    /**
     * `ValidateAndSetDefaults`: a host and a schema are required; an empty DSN is built
     * from the other settings, and a DSN that cannot be built is reported. Only `dns`
     * may change.
     */
    method ValidateAndSetDefaults() returns (err: Errs.Error)
      modifies this`dns
      ensures host == "" ==> err == Errs.Str("either Host must be provided") && dns == old(dns)
      ensures host != "" && schemaName == "" ==> err == Errs.Str("database is required") && dns == old(dns)
      ensures host != "" && schemaName != "" && old(dns) != "" ==> err == Errs.Nil && dns == old(dns)
      ensures host != "" && schemaName != "" && old(dns) == "" ==>
        match old(BuildOceanURI(this))
        case Success(uri) => err == Errs.Nil && dns == uri
        case Failure(_) => err == Errs.Str("dns is not fmt") && dns == ""
    {
      if host == "" {
        err := Errs.New("either Host must be provided", []);
        Errs.RenderEmpty("either Host must be provided");
        return;
      }
      if schemaName == "" {
        err := Errs.New("database is required", []);
        Errs.RenderEmpty("database is required");
        return;
      }
      if dns == "" {
        var uri := BuildOceanURI(this);
        if uri.Failure? {
          err := Errs.New("dns is not fmt", []);
          Errs.RenderEmpty("dns is not fmt");
          return;
        }
        dns := uri.value;
      }
      err := Errs.Nil;
    }
  }

  /** The user part of the DSN: `user@tenant#cluster`, `user@tenant` or `user`. */
  function Credentials(username: string, tenantName: string, clusterName: string): string
  {
    if tenantName != "" && clusterName != "" then
      Fmt.Sprintf(TenantClusterFormat, [Fmt.S(username), Fmt.S(tenantName), Fmt.S(clusterName)])
    else if tenantName != "" then
      Fmt.Sprintf(TenantFormat, [Fmt.S(username), Fmt.S(tenantName)])
    else
      username
  }

  /**
   * The three credential forms written out; a cluster name without a tenant name is
   * dropped.
   */
  lemma CredentialsLayout(username: string, tenantName: string, clusterName: string)
    ensures tenantName != "" && clusterName != "" ==>
      Credentials(username, tenantName, clusterName) == username + "@" + tenantName + "#" + clusterName
    ensures tenantName != "" && clusterName == "" ==>
      Credentials(username, tenantName, clusterName) == username + "@" + tenantName
    ensures tenantName == "" ==> Credentials(username, tenantName, clusterName) == username
  {
    var a3 := [Fmt.S(username), Fmt.S(tenantName), Fmt.S(clusterName)];
    var f3 := TenantClusterFormat;
    assert Fmt.Sprintf(f3.next.next.next.next.next, a3[3..]) == "";
    assert a3[2..][1..] == a3[3..];
    assert Fmt.Sprintf(f3.next.next.next.next, a3[2..]) == clusterName;
    assert Fmt.Sprintf(f3.next.next.next, a3[2..]) == "#" + clusterName;
    assert a3[1..][1..] == a3[2..];
    assert Fmt.Sprintf(f3.next.next, a3[1..]) == tenantName + ("#" + clusterName);
    assert Fmt.Sprintf(f3.next, a3[1..]) == "@" + (tenantName + ("#" + clusterName));
    assert Fmt.Sprintf(f3, a3[0..]) == username + ("@" + (tenantName + ("#" + clusterName)));
    assert a3[0..] == a3;
    var a2 := [Fmt.S(username), Fmt.S(tenantName)];
    var f2 := TenantFormat;
    assert Fmt.Sprintf(f2.next.next.next, a2[2..]) == "";
    assert a2[1..][1..] == a2[2..];
    assert Fmt.Sprintf(f2.next.next, a2[1..]) == tenantName;
    assert Fmt.Sprintf(f2.next, a2[1..]) == "@" + tenantName;
    assert Fmt.Sprintf(f2, a2[0..]) == username + ("@" + tenantName);
    assert a2[0..] == a2;
  }

  /**
   * `buildOceanURI`: no configuration and an empty user name are errors; otherwise the
   * settings are formatted into `OceanBaseURIFormat`.
   */
  function BuildOceanURI(config: Config?): (r: Result<string, Errs.Error>)
    reads config
    ensures config == null ==> r == Failure(Errs.Foreign("config is null"))
    ensures config != null && config.username == "" ==> r == Failure(Errs.Foreign("username cannot be empty"))
    ensures r.Success? <==> config != null && config.username != ""
  {
    if config == null then Failure(Errs.Foreign("config is null"))
    else if config.username == "" then Failure(Errs.Foreign("username cannot be empty"))
    else
      var creds := Credentials(config.username, config.tenantName, config.clusterName);
      Success(Fmt.Sprintf(OceanBaseURIFormat, [Fmt.S(creds), Fmt.S(config.password), Fmt.S(config.host),
                                               Fmt.D(config.port), Fmt.S(config.schemaName), Fmt.S(config.charset)]))
  }

  /** `OceanBaseURIFormat` applied to its six operands, written out. */
  lemma OceanFormatLayout(creds: string, password: string, host: string, port: int, schema: string, charset: string)
    ensures Fmt.Sprintf(OceanBaseURIFormat, [Fmt.S(creds), Fmt.S(password), Fmt.S(host), Fmt.D(port),
                                             Fmt.S(schema), Fmt.S(charset)])
         == creds + (":" + (password + ("@tcp(" + (host + (":" + (Strconv.Itoa(port) + (")/" + (schema
            + ("?charset=" + (charset + "&parseTime=True&loc=Local"))))))))))
  {
    var a := [Fmt.S(creds), Fmt.S(password), Fmt.S(host), Fmt.D(port), Fmt.S(schema), Fmt.S(charset)];
    assert Fmt.Sprintf(OceanBaseURIFormat.next.next.next.next.next.next.next.next.next.next.next.next, a[6..]) == "";
    assert Fmt.Sprintf(OceanBaseURIFormat.next.next.next.next.next.next.next.next.next.next.next, a[6..]) == "&parseTime=True&loc=Local";
    assert a[5..][1..] == a[6..];
    assert Fmt.Sprintf(OceanBaseURIFormat.next.next.next.next.next.next.next.next.next.next, a[5..]) == charset + ("&parseTime=True&loc=Local");
    assert Fmt.Sprintf(OceanBaseURIFormat.next.next.next.next.next.next.next.next.next, a[5..]) == "?charset=" + (charset + ("&parseTime=True&loc=Local"));
    assert a[4..][1..] == a[5..];
    assert Fmt.Sprintf(OceanBaseURIFormat.next.next.next.next.next.next.next.next, a[4..]) == schema + ("?charset=" + (charset + ("&parseTime=True&loc=Local")));
    assert Fmt.Sprintf(OceanBaseURIFormat.next.next.next.next.next.next.next, a[4..]) == ")/" + (schema + ("?charset=" + (charset + ("&parseTime=True&loc=Local"))));
    assert a[3..][1..] == a[4..];
    assert Fmt.Sprintf(OceanBaseURIFormat.next.next.next.next.next.next, a[3..]) == Strconv.Itoa(port) + (")/" + (schema + ("?charset=" + (charset + ("&parseTime=True&loc=Local")))));
    assert Fmt.Sprintf(OceanBaseURIFormat.next.next.next.next.next, a[3..]) == ":" + (Strconv.Itoa(port) + (")/" + (schema + ("?charset=" + (charset + ("&parseTime=True&loc=Local"))))));
    assert a[2..][1..] == a[3..];
    assert Fmt.Sprintf(OceanBaseURIFormat.next.next.next.next, a[2..]) == host + (":" + (Strconv.Itoa(port) + (")/" + (schema + ("?charset=" + (charset + ("&parseTime=True&loc=Local")))))));
    assert Fmt.Sprintf(OceanBaseURIFormat.next.next.next, a[2..]) == "@tcp(" + (host + (":" + (Strconv.Itoa(port) + (")/" + (schema + ("?charset=" + (charset + ("&parseTime=True&loc=Local"))))))));
    assert a[1..][1..] == a[2..];
    assert Fmt.Sprintf(OceanBaseURIFormat.next.next, a[1..]) == password + ("@tcp(" + (host + (":" + (Strconv.Itoa(port) + (")/" + (schema + ("?charset=" + (charset + ("&parseTime=True&loc=Local")))))))));
    assert Fmt.Sprintf(OceanBaseURIFormat.next, a[1..]) == ":" + (password + ("@tcp(" + (host + (":" + (Strconv.Itoa(port) + (")/" + (schema + ("?charset=" + (charset + ("&parseTime=True&loc=Local"))))))))));
    assert a[0..][1..] == a[1..];
    assert Fmt.Sprintf(OceanBaseURIFormat, a[0..]) == creds + (":" + (password + ("@tcp(" + (host + (":" + (Strconv.Itoa(port) + (")/" + (schema + ("?charset=" + (charset + ("&parseTime=True&loc=Local")))))))))));
    assert a[0..] == a;
  }

  /** The DSN of a configuration with a user name, written out field by field. */
  lemma BuildOceanURILayout(config: Config)
    requires config.username != ""
    ensures BuildOceanURI(config) == Success(
      Credentials(config.username, config.tenantName, config.clusterName) + (":" + (config.password
      + ("@tcp(" + (config.host + (":" + (Strconv.Itoa(config.port) + (")/" + (config.schemaName
      + ("?charset=" + (config.charset + "&parseTime=True&loc=Local")))))))))))
  {
    OceanFormatLayout(Credentials(config.username, config.tenantName, config.clusterName), config.password,
                      config.host, config.port, config.schemaName, config.charset);
  }

  /** `shouldRetry`: retry unless the context is done; the error itself is not consulted. */
  function ShouldRetry(ctxDone: bool, err: Errs.Error): (r: bool)
    ensures r <==> !ctxDone
  {
    if ctxDone then false else true
  }

  /** `time.Second << i`, in seconds. */
  function Backoff(i: nat): (s: nat)
    ensures s >= 1
  {
    if i == 0 then 1 else 2 * Backoff(i - 1)
  }

  /**
   * `initializeDBWithRetry`: at most `maxRetry` attempts; a done context before an
   * attempt ends the loop with the context's error; the first successful attempt is
   * returned; after the last failure its error is returned. `done(i)` says whether the
   * context is done before attempt `i`, `connect(i)` is the outcome of attempt `i`, and
   * `sleeps` lists the back-off delay after each failed attempt.
   */
  method InitializeDBWithRetry<D>(config: Config, done: nat -> bool, ctxErr: Errs.Error,
                                  connect: nat -> Result<D, Errs.Error>)
    returns (db: Option<D>, err: Errs.Error, attempts: nat, sleeps: seq<nat>)
    requires forall i :: connect(i).Failure? ==> connect(i).error != Errs.Nil
    ensures config.maxRetry <= 0 ==> db == None && err == Errs.Nil && attempts == 0
    ensures attempts == 0 || attempts <= config.maxRetry
    ensures forall j :: 0 <= j < attempts ==> !done(j)
    ensures forall j :: 0 <= j < |sleeps| ==> connect(j).Failure?
    ensures forall j {:trigger sleeps[j]} :: 0 <= j < |sleeps| ==> sleeps[j] == Backoff(j)
    ensures db.Some? ==> attempts > 0 && |sleeps| == attempts - 1
                         && connect(attempts - 1) == Success(db.value) && err == Errs.Nil
    ensures db.None? ==> |sleeps| == attempts
    ensures db.None? && 0 <= attempts < config.maxRetry ==> done(attempts) && err == ctxErr
    ensures db.None? && 0 < attempts == config.maxRetry ==> err == connect(attempts - 1).error
  {
    db, err, attempts, sleeps := None, Errs.Nil, 0, [];
    var i := 0;
    while i < config.maxRetry
      invariant i == 0 || i <= config.maxRetry
      invariant attempts == i && |sleeps| == i && db == None
      invariant forall j :: 0 <= j < i ==> !done(j) && connect(j).Failure?
      invariant forall j {:trigger sleeps[j]} :: 0 <= j < i ==> sleeps[j] == Backoff(j)
      invariant i == 0 ==> err == Errs.Nil
      invariant i > 0 ==> err == connect(i - 1).error
    {
      if done(i) {
        return None, ctxErr, i, sleeps;
      }
      var outcome := connect(i);
      attempts := i + 1;
      if outcome.Success? {
        return Some(outcome.value), Errs.Nil, attempts, sleeps;
      }
      err := outcome.error;
      sleeps := sleeps + [Backoff(i)];
      i := i + 1;
    }
  }
}
