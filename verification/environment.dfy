/** The process environment as the launcher sees it: a table from variable
    names to values, updated only through `setenv` with overwrite enabled. */
module Environment {
  import opened Wrappers

  type Env = map<string, string>

  /** `getenv`: the value of `name`, or None when it is unset. */
  function Lookup(env: Env, name: string): Option<string>
  {
    if name in env then Some(env[name]) else None
  }

  /** `setenv(name, value, 1)`: the entry is created or overwritten, and no
      other entry is touched. */
  function SetEnv(env: Env, name: string, value: string): (r: Env)
    ensures Lookup(r, name) == Some(value)
    ensures forall k :: k != name ==> Lookup(r, k) == Lookup(env, k)
    ensures r.Keys == env.Keys + {name}
  {
    env[name := value]
  }

  /** Two environments that answer every lookup alike are the same. */
  lemma Extensionality(a: Env, b: Env)
    requires forall k :: Lookup(a, k) == Lookup(b, k)
    ensures a == b
  {
    forall k | k in a
      ensures k in b && a[k] == b[k]
    {
      assert Lookup(a, k) == Some(a[k]);
    }
    forall k | k in b
      ensures k in a
    {
      assert Lookup(b, k) == Some(b[k]);
    }
  }
}
