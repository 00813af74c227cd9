/** The start-up check of required settings (`ensureEnv` in check-stock.js):
    a key is missing when the environment has no value for it, the value is
    empty, or the value is only white space. */
module Environment {
  import Strings

  /** The process environment: variable name to value. */
  type Env = map<string, string>

  /** The keys the checker requires before it does anything. */
  const RequiredKeys: seq<string> :=
    ["SMTP_HOST", "SMTP_PORT", "SMTP_USER", "SMTP_PASS", "MAIL_FROM", "MAIL_TO"]

  /** What `String.prototype.trim` removes: the ECMAScript WhiteSpace and
      LineTerminator characters. */
  predicate IsSpace(c: char)
  {
    || c == '\t' || c == '\n' || c == '\U{000B}' || c == '\U{000C}' || c == '\r' || c == ' '
    || c == '\U{00A0}' || c == '\U{1680}' || ('\U{2000}' <= c <= '\U{200A}')
    || c == '\U{2028}' || c == '\U{2029}' || c == '\U{202F}' || c == '\U{205F}'
    || c == '\U{3000}' || c == '\U{FEFF}'
  }

  /** `s` without its leading white space: a suffix of `s`. */
  function TrimStart(s: string): (r: string)
    ensures |r| <= |s| && r == s[|s| - |r|..]
  {
    if s != [] && IsSpace(s[0]) then TrimStart(s[1..]) else s
  }

  /** `s` without its trailing white space: a prefix of `s`. */
  function TrimEnd(s: string): (r: string)
    ensures |r| <= |s| && r == s[..|r|]
  {
    if s != [] && IsSpace(s[|s| - 1]) then TrimEnd(s[..|s| - 1]) else s
  }

  /** `s.trim()`. */
  function Trim(s: string): string
  {
    TrimEnd(TrimStart(s))
  }

  /** `!process.env[k] || String(process.env[k]).trim() === ''`. */
  predicate Unset(env: Env, k: string)
  {
    k !in env || env[k] == "" || Trim(env[k]) == ""
  }

  /** `keys.filter(k => Unset(k))`: the unset keys, in the order given. */
  function MissingKeys(env: Env, keys: seq<string>): (missing: seq<string>)
    ensures |missing| <= |keys|
    ensures forall k :: k in missing <==> k in keys && Unset(env, k)
  {
    if keys == [] then []
    else (if Unset(env, keys[0]) then [keys[0]] else []) + MissingKeys(env, keys[1..])
  }

  /** The outcome of the check: all set, or the error naming what is missing. */
  datatype EnvCheck = Ready | Missing(keys: seq<string>)

  /** `ensureEnv(keys)`: throws exactly when some key is unset, naming
      every unset key and no other. */
  function EnsureEnv(env: Env, keys: seq<string>): (r: EnvCheck)
    ensures r.Ready? <==> forall k :: k in keys ==> !Unset(env, k)
    ensures r.Missing? ==> r.keys != [] && r.keys == MissingKeys(env, keys)
  {
    var missing := MissingKeys(env, keys);
    if |missing| > 0 then
      assert missing[0] in missing;
      Missing(missing)
    else Ready
  }

  /** The message of the error `ensureEnv` throws. */
  function ErrorMessage(missing: seq<string>): string
  {
    ".env の設定が不足しています → " + Strings.Join(missing, ", ")
  }

  /** Trimming leaves nothing exactly when every character is white space. */
  lemma {:induction false} TrimStartEmpty(s: string)
    ensures TrimStart(s) == [] <==> forall i :: 0 <= i < |s| ==> IsSpace(s[i])
  {
    if s != [] && IsSpace(s[0]) {
      TrimStartEmpty(s[1..]);
      assert forall i :: 1 <= i < |s| ==> s[i] == s[1..][i - 1];
    }
  }

  /** A value counts as unset exactly when it is absent or all white space
      (the empty string included). */
  lemma UnsetIff(env: Env, k: string)
    ensures Unset(env, k) <==> k !in env || forall i :: 0 <= i < |env[k]| ==> IsSpace(env[k][i])
  {
    if k in env {
      TrimStartEmpty(env[k]);
      TrimStartHead(env[k]);
      var t := TrimStart(env[k]);
      if t != [] {
        TrimEndNonEmpty(t);
      }
    }
  }

  /** Trimming the end of a string that starts with a non-space character
      leaves that character. */
  lemma {:induction false} TrimEndNonEmpty(t: string)
    requires t != [] && !IsSpace(t[0])
    ensures TrimEnd(t) != []
  {
    if IsSpace(t[|t| - 1]) {
      assert |t| > 1;
      TrimEndNonEmpty(t[..|t| - 1]);
    }
  }

  /** `TrimStart` leaves a string that is empty or starts with a non-space. */
  lemma {:induction false} TrimStartHead(s: string)
    ensures TrimStart(s) == [] || !IsSpace(TrimStart(s)[0])
  {
    if s != [] && IsSpace(s[0]) {
      TrimStartHead(s[1..]);
    }
  }

  /** The filter keeps the original order: the missing keys of a
      concatenation are those of each part, one after the other. */
  lemma {:induction false} MissingKeysAppend(env: Env, a: seq<string>, b: seq<string>)
    ensures MissingKeys(env, a + b) == MissingKeys(env, a) + MissingKeys(env, b)
  {
    if a == [] {
      assert a + b == b;
    } else {
      assert (a + b)[0] == a[0];
      assert (a + b)[1..] == a[1..] + b;
      MissingKeysAppend(env, a[1..], b);
    }
  }
}
