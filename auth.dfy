/**
 * `getClient` in internal/providers/google.go: the client is built from the
 * token cached in the token file when it can be loaded; otherwise the
 * browser authorization flow runs once, its token is saved to that same
 * file and the client is built from it.
 *
 * The token file is a store of decoded tokens (`tokenFromFile` and
 * `saveToken` without their JSON), and the web flow (`getTokenFromWeb`) is
 * an object that hands out the n-th token granted by the user.
 */
module Auth {
  import opened Bytes
  import opened Wrappers
  import opened Os

  /** An OAuth2 token as the program passes it around; its fields are not inspected. */
  datatype Token = Token(access: seq<byte>, refresh: seq<byte>)

  /** What a file of the store holds: a token, or bytes that do not decode as one. */
  datatype Stored = Saved(token: Token) | Corrupt

  /** `config.Client(ctx, tok)`: an HTTP client that authorizes with `token`. */
  datatype Client = Client(token: Token)

  /** `tokenFromFile`: the token in `path`; None when the file is missing or does not decode. */
  function LoadToken(files: map<Path, Stored>, path: Path): (r: Option<Token>)
    ensures r.Some? <==> path in files && files[path].Saved?
    ensures r.Some? ==> files[path] == Saved(r.value)
  {
    if path in files && files[path].Saved? then Some(files[path].token) else None
  }

  /**
   * The rule of `getClient` from the store `files`, with `grant` the token
   * the web flow would return: the client and the store afterwards.
   */
  function Acquire(files: map<Path, Stored>, path: Path, grant: Token): (Client, map<Path, Stored>)
  {
    match LoadToken(files, path)
    case Some(t) => (Client(t), files)
    case None => (Client(grant), files[path := Saved(grant)])
  }

  /**
   * When the cached token loads, it is the client's token and the store
   * is untouched; otherwise the client uses the granted token, which is
   * saved to the same path, no other file changing, and loads back from it.
   */
  lemma AcquireRule(files: map<Path, Stored>, path: Path, grant: Token)
    ensures var (client, files') := Acquire(files, path, grant);
            && (LoadToken(files, path).Some? ==> client.token == LoadToken(files, path).value && files' == files)
            && (LoadToken(files, path).None? ==> client.token == grant && LoadToken(files', path) == Some(grant))
            && (forall p | p != path :: (p in files' <==> p in files) && (p in files ==> files'[p] == files[p]))
  {
  }

  /**
   * Once `getClient` has run, the next run reuses the same token whatever
   * the web flow would grant and changes nothing: the browser flow runs at
   * most once for a token file.
   */
  lemma AcquireTwice(files: map<Path, Stored>, path: Path, grant: Token, later: Token)
    ensures var (client, files') := Acquire(files, path, grant);
            Acquire(files', path, later) == (client, files')
  {
    var (client, files') := Acquire(files, path, grant);
    assert LoadToken(files', path) == Some(client.token);
  }

  /** The token file, read by `tokenFromFile` and written by `saveToken`. */
  class TokenStore {
    var files: map<Path, Stored>

    constructor (files: map<Path, Stored>)
      ensures this.files == files
    {
      this.files := files;
    }

    method Load(path: Path) returns (r: Option<Token>)
      ensures r == LoadToken(files, path)
    {
      r := LoadToken(files, path);
    }

    /** `saveToken`: the file is created or truncated and holds the token. */
    method Save(path: Path, token: Token)
      modifies this
      ensures files == old(files)[path := Saved(token)]
    {
      files := files[path := Saved(token)];
    }
  }

  /** `getTokenFromWeb`: each run returns the token the user grants on that run. */
  class WebFlow {
    const grants: nat -> Token
    var runs: nat

    constructor (grants: nat -> Token)
      ensures this.grants == grants && runs == 0
    {
      this.grants := grants;
      runs := 0;
    }

    method Run() returns (token: Token)
      modifies this
      ensures token == grants(old(runs)) && runs == old(runs) + 1
    {
      token := grants(runs);
      runs := runs + 1;
    }
  }

  /**
   * `getClient`: the web flow runs, and the store is written, only when the
   * cached token cannot be loaded.
   */
  method GetClient(store: TokenStore, web: WebFlow, path: Path) returns (client: Client)
    modifies store, web
    ensures (client, store.files) == Acquire(old(store.files), path, web.grants(old(web.runs)))
    ensures web.runs == old(web.runs) + (if LoadToken(old(store.files), path).Some? then 0 else 1)
  {
    var token := store.Load(path);
    if token.None? {
      var granted := web.Run();
      store.Save(path, granted);
      token := Some(granted);
    }
    client := Client(token.value);
  }
}
