/**
 * The options of the ZooKeeper discovery client. Each option assigns one group of the
 * client's settings; `NewZkClient` applies them in the order given, so a later option
 * overrides an earlier one that sets the same group.
 */
module ZkOptions {

  /** A gRPC dial option, known only by identity, or the default service configuration. */
  datatype DialOption = DialOption(id: nat) | ServiceConfig(json: string)

  /** The logger a client writes to. */
  datatype Logger = NilLog | Logger(id: nat)

  /** `ZkOption`: the option constructors of the package, one per setter. */
  datatype ZkOption =
    | WithRoundRobin
    | WithUserNameAndPassword(userName: string, password: string)
    | WithOptions(opts: seq<DialOption>)
    | WithFreq(freq: int)
    | WithTimeout(timeout: int)
    | WithLogger(logger: Logger)

  /** The client settings that options assign. `ticker` is the refresh period, in seconds. */
  datatype Settings = Settings(
    username: string,
    password: string,
    options: seq<DialOption>,
    ticker: int,
    timeout: int,
    logger: Logger,
    balancerName: string)

  const RoundRobin: string := "round_robin"

  /** The groups of settings, one per option. */
  datatype Field = BalancerField | CredentialsField | OptionsField | TickerField | TimeoutField | LoggerField

  /** The group an option assigns. */
  function Touches(o: ZkOption): Field
  {
    match o
    case WithRoundRobin => BalancerField
    case WithUserNameAndPassword(_, _) => CredentialsField
    case WithOptions(_) => OptionsField
    case WithFreq(_) => TickerField
    case WithTimeout(_) => TimeoutField
    case WithLogger(_) => LoggerField
  }

  /** Two settings agree on a group. */
  predicate SameField(s: Settings, t: Settings, f: Field)
  {
    match f
    case BalancerField => s.balancerName == t.balancerName
    case CredentialsField => s.username == t.username && s.password == t.password
    case OptionsField => s.options == t.options
    case TickerField => s.ticker == t.ticker
    case TimeoutField => s.timeout == t.timeout
    case LoggerField => s.logger == t.logger
  }

  /** Running one option on a client. */
  function ApplyOption(s: Settings, o: ZkOption): Settings
  {
    match o
    case WithRoundRobin => s.(balancerName := RoundRobin)
    case WithUserNameAndPassword(u, p) => s.(username := u, password := p)
    case WithOptions(opts) => s.(options := opts)
    case WithFreq(freq) => s.(ticker := freq)
    case WithTimeout(t) => s.(timeout := t)
    case WithLogger(l) => s.(logger := l)
  }

  /** `for _, option := range options { option(client) }`. */
  function ApplyAll(s: Settings, opts: seq<ZkOption>): Settings
  {
    if opts == [] then s else ApplyOption(ApplyAll(s, opts[..|opts| - 1]), opts[|opts| - 1])
  }

  /**
   * An option changes its own group and nothing else: `WithRoundRobin` sets the balancer
   * to round robin, `WithOptions` replaces the dial options rather than adding to them,
   * and each of the others sets exactly the values it was given.
   */
  lemma ApplyOptionOnly(s: Settings, o: ZkOption)
    ensures forall f :: f != Touches(o) ==> SameField(ApplyOption(s, o), s, f)
    ensures o.WithRoundRobin? ==> ApplyOption(s, o).balancerName == RoundRobin
    ensures o.WithUserNameAndPassword? ==>
      ApplyOption(s, o).username == o.userName && ApplyOption(s, o).password == o.password
    ensures o.WithOptions? ==> ApplyOption(s, o).options == o.opts
    ensures o.WithFreq? ==> ApplyOption(s, o).ticker == o.freq
    ensures o.WithTimeout? ==> ApplyOption(s, o).timeout == o.timeout
    ensures o.WithLogger? ==> ApplyOption(s, o).logger == o.logger
  {
  }

  /** The value an option leaves in its group does not depend on what was there before. */
  lemma ApplyOptionOverrides(s: Settings, t: Settings, o: ZkOption)
    ensures SameField(ApplyOption(s, o), ApplyOption(t, o), Touches(o))
  {
  }

  /** Options run one after another: applying a list in two pieces is applying it whole. */
  lemma {:induction false} ApplyAllAppend(s: Settings, a: seq<ZkOption>, b: seq<ZkOption>)
    ensures ApplyAll(s, a + b) == ApplyAll(ApplyAll(s, a), b)
    decreases |b|
  {
    if b == [] {
      assert a + b == a;
    } else {
      var n := |b| - 1;
      assert (a + b)[..|a + b| - 1] == a + b[..n];
      ApplyAllAppend(s, a, b[..n]);
    }
  }

  /** A group no option touches keeps its value. */
  lemma {:induction false} ApplyAllUntouched(s: Settings, opts: seq<ZkOption>, f: Field)
    requires forall i :: 0 <= i < |opts| ==> Touches(opts[i]) != f
    ensures SameField(ApplyAll(s, opts), s, f)
  {
    if opts != [] {
      var p := opts[..|opts| - 1];
      ApplyAllUntouched(s, p, f);
      ApplyOptionOnly(ApplyAll(s, p), opts[|opts| - 1]);
    }
  }

  /** The last option that sets a group decides it. */
  lemma ApplyAllLaterWins(s: Settings, opts: seq<ZkOption>, i: nat)
    requires i < |opts|
    requires forall j :: i < j < |opts| ==> Touches(opts[j]) != Touches(opts[i])
    ensures SameField(ApplyAll(s, opts), ApplyOption(s, opts[i]), Touches(opts[i]))
  {
    var f := Touches(opts[i]);
    var front := opts[..i + 1];
    var back := opts[i + 1..];
    assert opts == front + back;
    ApplyAllAppend(s, front, back);
    ApplyAllUntouched(ApplyAll(s, front), back, f);
    assert front[..i] == opts[..i];
    ApplyOptionOverrides(ApplyAll(s, opts[..i]), s, opts[i]);
  }
}
