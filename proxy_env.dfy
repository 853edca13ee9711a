/**
 * The four proxy variables of `process.env`: saved before the git command,
 * overwritten with the proxy address when it is needed, and put back
 * afterwards, deleting those that were unset.
 */
module ProxyEnvironment {
  import opened Wrappers

  const HttpProxy := "HTTP_PROXY"
  const HttpsProxy := "HTTPS_PROXY"
  const HttpProxyLower := "http_proxy"
  const HttpsProxyLower := "https_proxy"

  const ProxyVariables: set<string> := {HttpProxy, HttpsProxy, HttpProxyLower, HttpsProxyLower}

  /** `process.env[name]`: None stands for `undefined`. */
  function Lookup(env: map<string, string>, name: string): Option<string> {
    if name in env then Some(env[name]) else None
  }

  /** The original values of the four proxy variables. */
  datatype Snapshot = Snapshot(
    httpProxy: Option<string>,
    httpsProxy: Option<string>,
    httpProxyLower: Option<string>,
    httpsProxyLower: Option<string>)
  {
    /** The saved value of one of the four variables. */
    function Saved(name: string): Option<string>
      requires name in ProxyVariables
    {
      if name == HttpProxy then httpProxy
      else if name == HttpsProxy then httpsProxy
      else if name == HttpProxyLower then httpProxyLower
      else httpsProxyLower
    }
  }

  /** The snapshot taken of `env`. */
  function SnapshotOf(env: map<string, string>): (snap: Snapshot)
    ensures forall name :: name in ProxyVariables ==> snap.Saved(name) == Lookup(env, name)
  {
    Snapshot(Lookup(env, HttpProxy), Lookup(env, HttpsProxy), Lookup(env, HttpProxyLower), Lookup(env, HttpsProxyLower))
  }

  /** `env` with all four proxy variables set to `proxy`. */
  function WithProxy(env: map<string, string>, proxy: string): (r: map<string, string>)
    ensures forall name :: name in ProxyVariables ==> Lookup(r, name) == Some(proxy)
    ensures forall name :: name !in ProxyVariables ==> Lookup(r, name) == Lookup(env, name)
  {
    env[HttpProxy := proxy][HttpsProxy := proxy][HttpProxyLower := proxy][HttpsProxyLower := proxy]
  }

  /** One variable put back: deleted when it was `undefined`, reset to its old value otherwise. */
  function Reset(env: map<string, string>, name: string, saved: Option<string>): (r: map<string, string>)
    ensures Lookup(r, name) == saved
    ensures forall other :: other != name ==> Lookup(r, other) == Lookup(env, other)
  {
    match saved
    case None => env - {name}
    case Some(v) => env[name := v]
  }

  /** `env` with the four proxy variables put back as `snap` recorded them. */
  function Restored(env: map<string, string>, snap: Snapshot): (r: map<string, string>)
    ensures forall name :: name in ProxyVariables ==> Lookup(r, name) == snap.Saved(name)
    ensures forall name :: name !in ProxyVariables ==> Lookup(r, name) == Lookup(env, name)
  {
    var e1 := Reset(env, HttpProxy, snap.httpProxy);
    var e2 := Reset(e1, HttpsProxy, snap.httpsProxy);
    var e3 := Reset(e2, HttpProxyLower, snap.httpProxyLower);
    Reset(e3, HttpsProxyLower, snap.httpsProxyLower)
  }

  /** Two environments that agree on every variable are the same. */
  lemma SameLookups(m1: map<string, string>, m2: map<string, string>)
    requires forall name :: Lookup(m1, name) == Lookup(m2, name)
    ensures m1 == m2
  {
    assert m1.Keys == m2.Keys by {
      forall name ensures name in m1 <==> name in m2 {
        assert Lookup(m1, name) == Lookup(m2, name);
      }
    }
    forall name | name in m1 ensures m1[name] == m2[name] {
      assert Lookup(m1, name) == Lookup(m2, name);
    }
  }

  /**
   * Whatever was done to the four proxy variables, restoring from a snapshot
   * of the original environment gives the original back exactly: unset
   * variables are unset again, set ones have their old values, nothing else
   * was touched.
   */
  lemma RestoreUndoesProxyChanges(env: map<string, string>, changed: map<string, string>)
    requires forall name :: name !in ProxyVariables ==> Lookup(changed, name) == Lookup(env, name)
    ensures Restored(changed, SnapshotOf(env)) == env
  {
    var r := Restored(changed, SnapshotOf(env));
    forall name ensures Lookup(r, name) == Lookup(env, name) {
      if name in ProxyVariables {
        assert Lookup(r, name) == SnapshotOf(env).Saved(name);
      }
    }
    SameLookups(r, env);
  }

  /** Setting the proxy and then restoring is the identity on the whole environment. */
  lemma ApplyThenRestore(env: map<string, string>, proxy: string)
    ensures Restored(WithProxy(env, proxy), SnapshotOf(env)) == env
  {
    RestoreUndoesProxyChanges(env, WithProxy(env, proxy));
  }

  /** Restoring twice from one snapshot is restoring once. */
  lemma RestoreIdempotent(env: map<string, string>, snap: Snapshot)
    ensures Restored(Restored(env, snap), snap) == Restored(env, snap)
  {
    var once := Restored(env, snap);
    var twice := Restored(once, snap);
    forall name ensures Lookup(twice, name) == Lookup(once, name) {
      if name in ProxyVariables {
        assert Lookup(twice, name) == snap.Saved(name);
      }
    }
    SameLookups(twice, once);
  }

  /** `process.env`, with methods that change it in place. */
  class Environment {
    var vars: map<string, string>

    constructor (initial: map<string, string>)
      ensures vars == initial
    {
      vars := initial;
    }

    /** Lines 54-57: read the four proxy variables. */
    method TakeSnapshot() returns (snap: Snapshot)
      ensures snap == SnapshotOf(vars)
      ensures forall name :: name in ProxyVariables ==> snap.Saved(name) == Lookup(vars, name)
    {
      var httpProxy := Lookup(vars, HttpProxy);
      var httpsProxy := Lookup(vars, HttpsProxy);
      var httpProxyLower := Lookup(vars, HttpProxyLower);
      var httpsProxyLower := Lookup(vars, HttpsProxyLower);
      snap := Snapshot(httpProxy, httpsProxy, httpProxyLower, httpsProxyLower);
    }

    /** Lines 74-77: set all four proxy variables to `proxy`. */
    method SetProxy(proxy: string)
      modifies this
      ensures vars == WithProxy(old(vars), proxy)
      ensures forall name :: name in ProxyVariables ==> Lookup(vars, name) == Some(proxy)
      ensures forall name :: name !in ProxyVariables ==> Lookup(vars, name) == Lookup(old(vars), name)
    {
      vars := vars[HttpProxy := proxy];
      vars := vars[HttpsProxy := proxy];
      vars := vars[HttpProxyLower := proxy];
      vars := vars[HttpsProxyLower := proxy];
    }

    /** `restoreProxySettings`: put the four variables back when the proxy was set, do nothing otherwise. */
    method Restore(snap: Snapshot, needProxy: bool)
      modifies this
      ensures needProxy ==> vars == Restored(old(vars), snap)
      ensures !needProxy ==> vars == old(vars)
    {
      if needProxy {
        if snap.httpProxy.None? {
          vars := vars - {HttpProxy};
        } else {
          vars := vars[HttpProxy := snap.httpProxy.value];
        }
        if snap.httpsProxy.None? {
          vars := vars - {HttpsProxy};
        } else {
          vars := vars[HttpsProxy := snap.httpsProxy.value];
        }
        if snap.httpProxyLower.None? {
          vars := vars - {HttpProxyLower};
        } else {
          vars := vars[HttpProxyLower := snap.httpProxyLower.value];
        }
        if snap.httpsProxyLower.None? {
          vars := vars - {HttpsProxyLower};
        } else {
          vars := vars[HttpsProxyLower := snap.httpsProxyLower.value];
        }
      }
    }
  }
}
