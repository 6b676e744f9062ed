/** The configuration gate (backend/middleware/checkEnv.js): requests pass only when
    every required environment variable is set to a non-empty value. */
module CheckEnv {
  import opened Wrappers
  import Text
  import Seqs

  /** `process.env`: a variable not in the map is `undefined`. */
  type Env = map<string, string>

  const JwtSecret := "JWT_SECRET"
  const MongoUri := "MONGODB_URI"

  const Required: seq<string> := [JwtSecret, MongoUri]

  /** `process.env[name]` is truthy. */
  predicate IsSet(env: Env, name: string) {
    name in env && env[name] != ""
  }

  predicate Development(env: Env) {
    "NODE_ENV" in env && env["NODE_ENV"] == "development"
  }

  /** `requiredEnvVars.filter(v => !process.env[v])`. */
  function Missing(env: Env): (m: seq<string>)
    ensures forall n :: n in m <==> n in Required && !IsSet(env, n)
  {
    Seqs.Filter(Required, (n: string) => !IsSet(env, n))
  }

  /** The missing names are exactly the unset required ones, in declaration order. */
  lemma MissingInOrder(env: Env)
    ensures Missing(env) ==
      (if IsSet(env, JwtSecret) then [] else [JwtSecret])
      + (if IsSet(env, MongoUri) then [] else [MongoUri])
  {
    Seqs.FilterPair(JwtSecret, MongoUri, (n: string) => !IsSet(env, n));
  }

  /** What the gate does with a request. */
  datatype Gate = Next | Deny(status: int, message: string, error: Option<string>)

  /** The middleware: `next()` exactly when nothing is missing; otherwise 500 with the
      list of missing names, joined by ", ", in development mode only. */
  function Check(env: Env): (g: Gate)
    ensures g == Next <==> IsSet(env, JwtSecret) && IsSet(env, MongoUri)
    ensures g.Deny? ==> g.status == 500 && g.message == "Server configuration error"
    ensures g.Deny? ==> (g.error.Some? <==> Development(env))
    ensures g.Deny? && Development(env) ==> g.error.value == "Missing: " + Text.Join(Missing(env), ", ")
  {
    var missing := Missing(env);
    MissingInOrder(env);
    if |missing| > 0 then
      Deny(500, "Server configuration error",
           if Development(env) then Some("Missing: " + Text.Join(missing, ", ")) else None)
    else Next
  }

  /** The development-mode detail names exactly the unset variables, in declaration
      order. */
  lemma DevelopmentDetail(env: Env)
    requires Development(env)
    ensures !IsSet(env, JwtSecret) && !IsSet(env, MongoUri) ==>
      Check(env).error == Some("Missing: " + JwtSecret + ", " + MongoUri)
    ensures !IsSet(env, JwtSecret) && IsSet(env, MongoUri) ==>
      Check(env).error == Some("Missing: " + JwtSecret)
    ensures IsSet(env, JwtSecret) && !IsSet(env, MongoUri) ==>
      Check(env).error == Some("Missing: " + MongoUri)
  {
    MissingInOrder(env);
    var missing := Missing(env);
    if missing != [] {
      DetailFor(env, missing);
      if |missing| == 2 {
        assert missing == [JwtSecret, MongoUri] && missing[1..] == [MongoUri];
        assert Text.Join(missing, ", ") == JwtSecret + ", " + MongoUri;
        assert "Missing: " + (JwtSecret + ", " + MongoUri) == "Missing: " + JwtSecret + ", " + MongoUri;
      }
    }
  }

  lemma DetailFor(env: Env, names: seq<string>)
    requires Development(env) && Missing(env) == names && |names| > 0
    ensures Check(env).error == Some("Missing: " + Text.Join(names, ", "))
  {
  }
}
