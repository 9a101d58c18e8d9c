/** `simulate_request`: the request globals are overwritten for the included
    installer and put back afterwards, whatever the installer did to them. */
module RequestContext {
  import opened PhpValues
  import opened RequestParams

  /** The five request globals at one moment. */
  datatype Globals = Globals(get: Params, post: Params, request: Params, server: Params, env: Params)

  /** The `$_SERVER` entries a simulated request sets. */
  const SimulatedKeys: set<string> :=
    {"DOCUMENT_ROOT", "HTTP_HOST", "REQUEST_URI", "SCRIPT_NAME", "HTTP_USER_AGENT", "REMOTE_ADDR"}

  /** `$_SERVER` as the installer sees it: the caller's entries, with the six
      simulated ones set as if the installer were reached over HTTP on
      localhost; `scriptDir` is the script's own directory. */
  function SimulatedServer(server: Params, scriptDir: string): (s: Params)
    ensures forall k :: k in s <==> k in server || k in SimulatedKeys
    ensures forall k :: k in server && k !in SimulatedKeys ==> s[k] == server[k]
    ensures s["DOCUMENT_ROOT"] == Str(scriptDir) && s["HTTP_HOST"] == Str("localhost")
    ensures s["REQUEST_URI"] == Str("/bitrixsetup.php") && s["SCRIPT_NAME"] == Str("/bitrixsetup.php")
    ensures s["HTTP_USER_AGENT"] == Str("BitrixSetupCLI") && s["REMOTE_ADDR"] == Str("127.0.0.1")
  {
    server["DOCUMENT_ROOT" := Str(scriptDir)]
      ["HTTP_HOST" := Str("localhost")]
      ["REQUEST_URI" := Str("/bitrixsetup.php")]
      ["SCRIPT_NAME" := Str("/bitrixsetup.php")]
      ["HTTP_USER_AGENT" := Str("BitrixSetupCLI")]
      ["REMOTE_ADDR" := Str("127.0.0.1")]
  }

  /** The request globals of the running script. */
  class Context {
    var get: Params
    var post: Params
    var request: Params
    var server: Params
    var env: Params
    /** The requests made through `SimulateRequest` so far, in order: the
        parameters and whether the output was captured. */
    ghost var log: seq<(Params, bool)>

    constructor (initial: Globals)
      ensures State() == initial && log == []
    {
      get, post, request := initial.get, initial.post, initial.request;
      server, env := initial.server, initial.env;
      log := [];
    }

    /** The globals as one value. */
    function State(): Globals
      reads this
    {
      Globals(get, post, request, server, env)
    }

    /** The language the dispatcher stores in `$_GET`, `$_REQUEST` and
        `$_POST` before it acts. */
    method SetLanguage(lang: Value)
      modifies this
      ensures get == old(get)["lang" := lang]
      ensures request == old(request)["lang" := lang]
      ensures post == old(post)["lang" := lang]
      ensures server == old(server) && env == old(env) && log == old(log)
    {
      get := get["lang" := lang];
      request := request["lang" := lang];
      post := post["lang" := lang];
    }

    /** Runs the installer on `params`. The installer sees the parameters as
        its GET, POST and REQUEST data and a simulated `$_SERVER`; afterwards
        every global is back to its value before the call and the request is
        on the log. The installer's output is returned when it is captured,
        and "" when it went to the console. */
    method SimulateRequest(params: Params, suppressOutput: bool, scriptDir: string)
      returns (output: string, ghost seen: Globals)
      modifies this
      ensures State() == old(State())
      ensures log == old(log) + [(params, suppressOutput)]
      ensures seen == Globals(params, params, params, SimulatedServer(old(server), scriptDir), old(env))
      ensures !suppressOutput ==> output == ""
    {
      var origGet, origPost, origRequest := get, post, request;
      var origServer, origEnv := server, env;
      ghost var origLog := log;

      get, post, request := params, params, params;
      server := SimulatedServer(server, scriptDir);
      seen := State();

      var printed := RunInstaller(this);
      output := if suppressOutput then printed else "";

      get, post, request := origGet, origPost, origRequest;
      server, env := origServer, origEnv;
      log := origLog + [(params, suppressOutput)];
    }
  }

  /** The included installer: foreign code that may leave any request global
      changed and prints whatever it prints. */
  method RunInstaller(ctx: Context) returns (printed: string)
    modifies ctx
  {
    ctx.get := *;
    ctx.post := *;
    ctx.request := *;
    ctx.server := *;
    ctx.env := *;
    printed := *;
  }
}
