/** `src/utils.py`: loading the proxy list once, picking one proxy from the
    loaded list for each request, and the request headers. The proxy file is
    read and cleaned as in `crawler/utils.py`; the headers are the same
    function. */
module SrcUtils {
  import opened Wrappers
  import opened Text
  import opened Utils

  /** `load_proxies(proxy_file)`: the stripped, non-blank lines of the file
      in file order, or `[]` when there is no file. */
  function LoadProxies(file: ProxyFile): (r: seq<string>)
    ensures file.Missing? ==> r == []
    ensures forall p :: p in r ==> p != "" && Strip(p) == p
  {
    match file
    case Missing => []
    case Present(text) => ProxyCandidates(text)
  }

  /** A loaded proxy is exactly the non-blank strip of one of the file's
      lines. */
  lemma LoadProxiesMembers(file: ProxyFile, p: string)
    ensures p in LoadProxies(file) <==>
            file.Present? && p != "" && exists l :: l in Lines(file.text) && Strip(l) == p
  {
    if file.Present? {
      CleanLinesMembers(Lines(file.text), p);
    }
  }

  /** Cleaning the loaded list again changes nothing. */
  lemma LoadProxiesIdempotent(file: ProxyFile)
    ensures CleanLines(LoadProxies(file)) == LoadProxies(file)
  {
    if file.Present? {
      CleanLinesIdempotent(Lines(file.text));
    }
  }

  /** A file written one stripped, non-blank name per line loads as those
      names, in order; `proxy1.com\nproxy2.com\nproxy3.com\n` is one
      instance. */
  lemma LoadWrittenFile(names: seq<string>)
    requires forall i :: 0 <= i < |names| ==> IsListable(names[i])
    ensures LoadProxies(Present(FileOf(names))) == names
  {
    ReadWrittenFile(names);
  }

  /** An empty file and a missing file both load as `[]`. */
  lemma NoProxiesLoaded()
    ensures LoadProxies(Present("")) == []
    ensures LoadProxies(Missing) == []
  {
    EmptyFileHasNoProxy();
  }

  /** `get_random_proxy(proxies)` with `random.choice` picking the
      `choice`-th entry: `None` for an empty list, otherwise `http://`
      followed by the entry. */
  function GetRandomProxy(proxies: seq<string>, choice: nat): (r: Option<string>)
    requires proxies != [] ==> choice < |proxies|
    ensures r.None? <==> proxies == []
  {
    if proxies == [] then None else Some("http://" + proxies[choice])
  }

  /** Every proxy picked is `http://` followed by an entry of the list, and
      every entry can be picked. */
  lemma GetRandomProxyListed(proxies: seq<string>, address: string)
    ensures (exists choice: nat :: choice < |proxies| && GetRandomProxy(proxies, choice) == Some(address))
            <==> |address| >= 7 && address[..7] == "http://" && address[7..] in proxies
  {
    if |address| >= 7 && address[..7] == "http://" && address[7..] in proxies {
      var choice: nat :| choice < |proxies| && proxies[choice] == address[7..];
      assert "http://" + proxies[choice] == address;
      assert GetRandomProxy(proxies, choice) == Some(address);
    }
    if exists choice: nat :: choice < |proxies| && GetRandomProxy(proxies, choice) == Some(address) {
      var choice: nat :| choice < |proxies| && GetRandomProxy(proxies, choice) == Some(address);
      assert address == "http://" + proxies[choice];
      assert address[7..] == proxies[choice];
    }
  }
}
