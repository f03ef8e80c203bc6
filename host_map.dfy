/**
 * The configuration document and the host map built from it: each `hosts` rule
 * maps an origin string (`url`) to a listening port and a path prefix to strip.
 */
module HostMap {
  import opened Wrappers

  /** One item of the configuration's `hosts` list. */
  datatype HostRule = HostRule(url: string, port: int, removePrefix: Option<string>)

  /** The loaded configuration document: `waittime` and `hosts` may each be absent. */
  datatype ConfigDoc = ConfigDoc(waittime: Option<int>, hosts: Option<seq<HostRule>>)

  /** What the host map stores for an origin. */
  datatype HostEntry = HostEntry(port: int, removePrefix: string)

  /** The stored entry of a rule: a missing (or empty) `removePrefix` becomes "". */
  function EntryOf(rule: HostRule): HostEntry
  {
    HostEntry(rule.port, rule.removePrefix.GetOr(""))
  }

  /** `config.waittime || 0`: a missing wait time is 0. */
  function WaitTimeOf(config: ConfigDoc): int
  {
    config.waittime.GetOr(0)
  }

  /** `config.hosts || []` */
  function HostsOf(config: ConfigDoc): seq<HostRule>
  {
    config.hosts.GetOr([])
  }

  /** The host map that inserting `rules` one after the other into an empty table leaves. */
  function BuildHostMap(rules: seq<HostRule>): map<string, HostEntry>
  {
    if rules == [] then map[]
    else
      var last := rules[|rules| - 1];
      BuildHostMap(rules[..|rules| - 1])[last.url := EntryOf(last)]
  }

  /** The keys of the host map are exactly the rules' urls. */
  lemma {:induction false} HostMapKeys(rules: seq<HostRule>)
    ensures forall u :: u in BuildHostMap(rules) <==> exists j :: 0 <= j < |rules| && rules[j].url == u
  {
    if rules != [] {
      var init := rules[..|rules| - 1];
      HostMapKeys(init);
      forall u ensures u in BuildHostMap(rules) <==> exists j :: 0 <= j < |rules| && rules[j].url == u {
        if exists j :: 0 <= j < |init| && init[j].url == u {
          var j :| 0 <= j < |init| && init[j].url == u;
          assert rules[j].url == u;
        }
        if u in BuildHostMap(rules) && u != rules[|rules| - 1].url {
          assert u in BuildHostMap(init);
          var j :| 0 <= j < |init| && init[j].url == u;
          assert rules[j].url == u;
        }
      }
    }
  }

  /**
   * Later rules overwrite earlier ones: an origin maps to the entry of the LAST
   * rule with that url, with `removePrefix` defaulted to "".
   */
  lemma {:induction false} LastRuleWins(rules: seq<HostRule>, j: nat)
    requires j < |rules|
    requires forall k :: j < k < |rules| ==> rules[k].url != rules[j].url
    ensures rules[j].url in BuildHostMap(rules)
    ensures BuildHostMap(rules)[rules[j].url] == HostEntry(rules[j].port, rules[j].removePrefix.GetOr(""))
  {
    if j < |rules| - 1 {
      var init := rules[..|rules| - 1];
      LastRuleWins(init, j);
    }
  }
}
