/**
 * species/script_writers/experiment.py: configuration values that may name
 * an environment variable ("env.NAME/rest"), the expansion of the
 * experiment's four well-known names inside command templates, and the
 * configuration's sample size and wait_until_started entries.
 *
 * The process environment and the YAML mappings become maps from names to
 * strings; error_out, which prints and ends the process, becomes the error
 * Exit.
 */
module Experiment {
  import opened Wrappers
  import opened PyStrings

  type Env = map<string, string>

  const ENV_PREFIX := "env."
  const TOOL_PATH := "TOOL_PATH"
  const OUTPUT_PATH := "OUTPUT_PATH"
  const ELASTIC_SEARCH_URL := "ELASTIC_SEARCH_URL"
  const TITLE := "TITLE"
  const WAIT_UNTIL_STARTED := "wait_until_started"

  /**
   * get_string_or_environment_value: a plain string is its own value; for
   * "env.NAME/rest" the variable NAME replaces the first '/'-separated part.
   * None stands for the (False, None) answer given when NAME is unset.
   */
  function EnvValue(env: Env, s: string): Option<string> {
    if StartsWith(s, ENV_PREFIX) then
      var data := SplitStr(s[4..], "/");
      if data[0] !in env then None
      else if |data| > 1 then Some(Join("/", data[0 := env[data[0]]]))
      else Some(env[data[0]])
    else Some(s)
  }

  /** not_configured: the comment line written in place of an absent entry. */
  function NotConfigured(s: string): (r: string)
    ensures |r| == |s| + 31 && r[2..|s| + 2] == s
    ensures StartsWith(r, "# ") && EndsWith(r, " is NOT part of configuration")
  {
    var tail := " is NOT part of configuration";
    assert |tail| == 29;
    "# " + s + tail
  }

  /** A YAML lookup: a missing key raises KeyError. */
  function Lookup(m: map<string, string>, key: string): (r: Result<string>)
    ensures r.Ok? <==> key in m
    ensures r.Ok? ==> r.value == m[key]
    ensures r.Err? ==> r.error == MissingKey(key)
  {
    if key in m then Ok(m[key]) else Err(MissingKey(key))
  }

  /** The four replacements, in the order env_expand applies them. */
  function Substitute(s: string, tool: string, output: string, url: string, title: string): string {
    Replace(Replace(Replace(Replace(s, TOOL_PATH, tool), OUTPUT_PATH, output), ELASTIC_SEARCH_URL, url), TITLE, title)
  }

  /**
   * Experiment.env_expand: each of the four values is looked up and resolved
   * in turn, stopping at the first unresolved one (error_out); OUTPUT_PATH
   * is replaced by the resolved output path, "/" and the raw title.
   */
  function EnvExpand(experiment: map<string, string>, env: Env, s: string): Result<string> {
    match Lookup(experiment, TOOL_PATH)
    case Err(e) => Err(e)
    case Ok(rawTool) =>
      match EnvValue(env, rawTool)
      case None => Err(Exit)
      case Some(tool) =>
        match Lookup(experiment, OUTPUT_PATH)
        case Err(e) => Err(e)
        case Ok(rawOutput) =>
          match EnvValue(env, rawOutput)
          case None => Err(Exit)
          case Some(output) =>
            match Lookup(experiment, ELASTIC_SEARCH_URL)
            case Err(e) => Err(e)
            case Ok(rawUrl) =>
              match EnvValue(env, rawUrl)
              case None => Err(Exit)
              case Some(url) =>
                match Lookup(experiment, TITLE)
                case Err(e) => Err(e)
                case Ok(rawTitle) =>
                  match EnvValue(env, rawTitle)
                  case None => Err(Exit)
                  case Some(title) => Ok(Substitute(s, tool, output + "/" + rawTitle, url, title))
  }

  /** Configuration.wait_until_started: the expanded entry, or the not-configured comment. */
  function WaitUntilStarted(experiment: map<string, string>, env: Env, configuration: map<string, string>): Result<string> {
    if WAIT_UNTIL_STARTED in configuration then EnvExpand(experiment, env, configuration[WAIT_UNTIL_STARTED])
    else Ok(NotConfigured(WAIT_UNTIL_STARTED))
  }

  /** Configuration.sample_size_percent: one trailing '%' is dropped. */
  function SampleSizePercent(size: string): (r: string)
    ensures EndsWith(size, "%") ==> r + "%" == size
    ensures !EndsWith(size, "%") ==> r == size
  {
    if EndsWith(size, "%") then size[..|size| - 1] else size
  }

  /** Configuration.sample_size_info: the sample count and the percentage without its '%'. */
  function SampleSizeInfo(count: string, size: string): (r: (string, string))
    ensures r.0 == count
    ensures EndsWith(size, "%") ==> r.1 + "%" == size
    ensures !EndsWith(size, "%") ==> r.1 == size
  {
    (count, SampleSizePercent(size))
  }

  // ---------------------------------------------------------------- lemmas

  /** A string not starting with "env." is its own value. */
  lemma PlainValue(env: Env, s: string)
    requires !StartsWith(s, ENV_PREFIX)
    ensures EnvValue(env, s) == Some(s)
  {
  }

  /** "env.NAME" is the variable's value, or unresolved when NAME is unset. */
  lemma VariableValue(env: Env, name: string)
    requires '/' !in name
    ensures EnvValue(env, ENV_PREFIX + name) == if name in env then Some(env[name]) else None
  {
    assert (ENV_PREFIX + name)[4..] == name;
    SplitCharAbsent(name, '/');
  }

  /** "env.NAME/rest": NAME is the text up to the first '/', and its value replaces it in front of the untouched rest. */
  lemma VariablePathValue(env: Env, name: string, rest: string)
    requires '/' !in name
    ensures EnvValue(env, ENV_PREFIX + name + "/" + rest) == if name in env then Some(env[name] + "/" + rest) else None
  {
    var s := ENV_PREFIX + name + "/" + rest;
    var fs := SplitStr(rest, "/");
    assert s[..4] == ENV_PREFIX;
    assert SplitStr(s[4..], "/") == [name] + fs by {
      assert s[4..] == name + ['/'] + rest;
      SplitCharAt(name, '/', rest);
      SplitCharAbsent(name, '/');
    }
    if name in env {
      var v := env[name];
      assert ([name] + fs)[0 := v] == [v] + fs;
      assert Join("/", [v] + fs) == v + "/" + Join("/", fs) by {
        assert ([v] + fs)[0] == v && ([v] + fs)[1..] == fs;
      }
      JoinSplitStr(rest, "/");
    }
  }

  /** Stripping removes exactly one '%': "50%%" keeps one. */
  lemma PercentStrippedOnce(x: string)
    ensures SampleSizePercent(x + "%") == x
    ensures SampleSizePercent(x + "%%") == x + "%"
  {
    assert (x + "%%")[..|x| + 1] == x + "%";
  }

  /** env_expand succeeds exactly when the four entries exist and resolve; an unresolved one ends the process. */
  lemma {:induction false} EnvExpandOutcome(experiment: map<string, string>, env: Env, s: string)
    requires TOOL_PATH in experiment && OUTPUT_PATH in experiment
    requires ELASTIC_SEARCH_URL in experiment && TITLE in experiment
    ensures var r := EnvExpand(experiment, env, s);
      && (r.Ok? <==> (EnvValue(env, experiment[TOOL_PATH]).Some? && EnvValue(env, experiment[OUTPUT_PATH]).Some?
                      && EnvValue(env, experiment[ELASTIC_SEARCH_URL]).Some? && EnvValue(env, experiment[TITLE]).Some?))
      && (r.Err? ==> r.error == Exit)
  {
  }

  /** Without a tool_path entry, the first lookup raises KeyError for tool_path, whatever else holds. */
  lemma MissingTool(experiment: map<string, string>, env: Env, s: string)
    requires TOOL_PATH !in experiment
    ensures EnvExpand(experiment, env, s) == Err(MissingKey(TOOL_PATH))
  {
  }

  /** The four names, resolved. */
  predicate Resolves(experiment: map<string, string>, env: Env) {
    && TOOL_PATH in experiment && EnvValue(env, experiment[TOOL_PATH]).Some?
    && OUTPUT_PATH in experiment && EnvValue(env, experiment[OUTPUT_PATH]).Some?
    && ELASTIC_SEARCH_URL in experiment && EnvValue(env, experiment[ELASTIC_SEARCH_URL]).Some?
    && TITLE in experiment && EnvValue(env, experiment[TITLE]).Some?
  }

  /** With everything resolved, the text goes through the four replacements; OUTPUT_PATH gets "/" and the raw title. */
  lemma ExpandResolved(experiment: map<string, string>, env: Env, s: string)
    requires Resolves(experiment, env)
    ensures EnvExpand(experiment, env, s)
         == Ok(Substitute(s, EnvValue(env, experiment[TOOL_PATH]).value,
                          EnvValue(env, experiment[OUTPUT_PATH]).value + "/" + experiment[TITLE],
                          EnvValue(env, experiment[ELASTIC_SEARCH_URL]).value,
                          EnvValue(env, experiment[TITLE]).value))
  {
  }

  /** Text naming none of the four names is left alone. */
  lemma SubstituteWithoutNames(s: string, tool: string, output: string, url: string, title: string)
    requires !Contains(s, TOOL_PATH) && !Contains(s, OUTPUT_PATH) && !Contains(s, ELASTIC_SEARCH_URL) && !Contains(s, TITLE)
    ensures Substitute(s, tool, output, url, title) == s
  {
    ReplaceAbsent(s, TOOL_PATH, tool);
    ReplaceAbsent(s, OUTPUT_PATH, output);
    ReplaceAbsent(s, ELASTIC_SEARCH_URL, url);
    ReplaceAbsent(s, TITLE, title);
  }

  /** Four replacements in a row, on a text starting with the second pattern and naming no other. */
  lemma ReplaceSecond(s: string, p1: string, r1: string, p2: string, r2: string, p3: string, r3: string, p4: string, r4: string, rest: string)
    requires |p1| > 0 && |p2| > 0 && |p3| > 0 && |p4| > 0 && s == p2 + rest
    requires !Contains(s, p1) && !Contains(rest, p2) && !Contains(r2 + rest, p3) && !Contains(r2 + rest, p4)
    ensures Replace(Replace(Replace(Replace(s, p1, r1), p2, r2), p3, r3), p4, r4) == r2 + rest
  {
    ReplaceAbsent(s, p1, r1);
    ReplaceInfix([], p2, rest, r2);
    assert [] + p2 + rest == s && [] + r2 + rest == r2 + rest;
    ReplaceAbsent(r2 + rest, p3, r3);
    ReplaceAbsent(r2 + rest, p4, r4);
  }

  /** A leading OUTPUT_PATH is replaced, provided the replacement brings in no later name. */
  lemma SubstituteOutputPath(rest: string, tool: string, output: string, url: string, title: string)
    requires !Contains(OUTPUT_PATH + rest, TOOL_PATH) && !Contains(rest, OUTPUT_PATH)
    requires !Contains(output + rest, ELASTIC_SEARCH_URL) && !Contains(output + rest, TITLE)
    ensures Substitute(OUTPUT_PATH + rest, tool, output, url, title) == output + rest
  {
    ReplaceSecond(OUTPUT_PATH + rest, TOOL_PATH, tool, OUTPUT_PATH, output, ELASTIC_SEARCH_URL, url, TITLE, title, rest);
  }

  /** Once resolved, text naming none of the four names comes back unchanged. */
  lemma ExpandWithoutNames(experiment: map<string, string>, env: Env, s: string)
    requires Resolves(experiment, env)
    requires !Contains(s, TOOL_PATH) && !Contains(s, OUTPUT_PATH) && !Contains(s, ELASTIC_SEARCH_URL) && !Contains(s, TITLE)
    ensures EnvExpand(experiment, env, s) == Ok(s)
  {
    ExpandResolved(experiment, env, s);
    SubstituteWithoutNames(s, EnvValue(env, experiment[TOOL_PATH]).value,
                           EnvValue(env, experiment[OUTPUT_PATH]).value + "/" + experiment[TITLE],
                           EnvValue(env, experiment[ELASTIC_SEARCH_URL]).value,
                           EnvValue(env, experiment[TITLE]).value);
  }

  /**
   * "OUTPUT_PATH" followed by a path expands to the resolved output path,
   * "/", the raw title and that path, when no value brings in another name.
   */
  lemma ExpandOutputPath(experiment: map<string, string>, env: Env, rest: string)
    requires Resolves(experiment, env)
    requires !Contains(OUTPUT_PATH + rest, TOOL_PATH) && !Contains(rest, OUTPUT_PATH)
    requires var out := EnvValue(env, experiment[OUTPUT_PATH]).value + "/" + experiment[TITLE] + rest;
      !Contains(out, ELASTIC_SEARCH_URL) && !Contains(out, TITLE)
    ensures EnvExpand(experiment, env, OUTPUT_PATH + rest)
         == Ok(EnvValue(env, experiment[OUTPUT_PATH]).value + "/" + experiment[TITLE] + rest)
  {
    ExpandResolved(experiment, env, OUTPUT_PATH + rest);
    SubstituteOutputPath(rest, EnvValue(env, experiment[TOOL_PATH]).value,
                         EnvValue(env, experiment[OUTPUT_PATH]).value + "/" + experiment[TITLE],
                         EnvValue(env, experiment[ELASTIC_SEARCH_URL]).value,
                         EnvValue(env, experiment[TITLE]).value);
  }

  /** wait_until_started: the expanded entry when configured, the not-configured comment otherwise. */
  lemma WaitUntilStartedCases(experiment: map<string, string>, env: Env, configuration: map<string, string>)
    ensures WAIT_UNTIL_STARTED !in configuration ==> WaitUntilStarted(experiment, env, configuration) == Ok(NotConfigured(WAIT_UNTIL_STARTED))
    ensures WAIT_UNTIL_STARTED in configuration ==> WaitUntilStarted(experiment, env, configuration) == EnvExpand(experiment, env, configuration[WAIT_UNTIL_STARTED])
  {
  }
}
