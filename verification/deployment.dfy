/**
 DeploymentConfig and the environment variables it hands to a deployment's
 entrypoint.
 */
module Deployment {
  import opened Wrappers

  /** How a deployment should behave: its identity, the server address it reports
      to (empty when there is none) and whether that connection skips TLS. */
  datatype DeploymentConfig = DeploymentConfig(id: string, serverAddr: string, serverInsecure: bool)

  const DeploymentIdVar: string := "DEVFLOW_DEPLOYMENT_ID"
  const ServerDisableVar: string := "DEVFLOW_SERVER_DISABLE"
  const ServerAddrVar: string := "DEVFLOW_SERVER_ADDR"
  const ServerInsecureVar: string := "DEVFLOW_SERVER_INSECURE"

  /** Every variable Env can set. */
  const EnvVars: set<string> := {DeploymentIdVar, ServerDisableVar, ServerAddrVar, ServerInsecureVar}

  /** The environment variables the entrypoint needs to see configuration `c`. */
  function Env(c: DeploymentConfig): (r: map<string, string>)
    // the deployment identity is always present
    ensures DeploymentIdVar in r && r[DeploymentIdVar] == c.id
    // no address: the server is disabled, and nothing else is set
    ensures c.serverAddr == "" ==> r == map[DeploymentIdVar := c.id, ServerDisableVar := "1"]
    // an address: it is passed on, and the server is not disabled
    ensures c.serverAddr != "" ==>
      ServerAddrVar in r && r[ServerAddrVar] == c.serverAddr && ServerDisableVar !in r
    // insecure is reported only alongside an address
    ensures ServerInsecureVar in r <==> c.serverAddr != "" && c.serverInsecure
    ensures ServerInsecureVar in r ==> r[ServerInsecureVar] == "1"
    ensures !(ServerDisableVar in r && ServerAddrVar in r)
    ensures r.Keys <= EnvVars && 2 <= |r| <= 3
  {
    var base := map[DeploymentIdVar := c.id];
    if c.serverAddr == "" then
      base[ServerDisableVar := "1"]
    else if c.serverInsecure then
      base[ServerAddrVar := c.serverAddr][ServerInsecureVar := "1"]
    else
      base[ServerAddrVar := c.serverAddr]
  }

  /** The configuration as far as the environment can tell it: without an address
      the insecure flag has no effect and is not reported. */
  function Normalize(c: DeploymentConfig): DeploymentConfig
  {
    if c.serverAddr == "" then c.(serverInsecure := false) else c
  }

  /** Reading the configuration back from the variables: a reference for what Env
      conveys. None when the variables are not a shape Env produces. */
  function Decode(env: map<string, string>): Option<DeploymentConfig>
  {
    if DeploymentIdVar !in env then None
    else if ServerDisableVar in env then
      Some(DeploymentConfig(env[DeploymentIdVar], "", false))
    else if ServerAddrVar in env && env[ServerAddrVar] != "" then
      Some(DeploymentConfig(env[DeploymentIdVar], env[ServerAddrVar], ServerInsecureVar in env))
    else None
  }

  /** Env loses nothing but the insecure flag of a configuration without an address. */
  lemma EnvDecodes(c: DeploymentConfig)
    ensures Decode(Env(c)) == Some(Normalize(c))
  {
  }

  /** Two configurations yield the same environment exactly when they agree on the
      identity and the address, and, when there is an address, on insecure. */
  lemma EnvInjective(a: DeploymentConfig, b: DeploymentConfig)
    ensures Env(a) == Env(b) <==>
      a.id == b.id && a.serverAddr == b.serverAddr &&
      (a.serverAddr != "" ==> a.serverInsecure == b.serverInsecure)
  {
  }
}
