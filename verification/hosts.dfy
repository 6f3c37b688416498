/** Deriving the website name from the HTTP `Host` header. */
module Hosts {
  import opened Text

  /**
   * `http_host.split(':')[0]`: the host name with any `:port` suffix
   * removed. The result is the longest prefix without a colon.
   */
  function GetWebsiteFromHost(httpHost: string): (r: string)
    ensures r <= httpHost
    ensures ':' !in r
    ensures |r| == |httpHost| || httpHost[|r|] == ':'
  {
    FirstPart(httpHost, ':');
    Split(httpHost, ':')[0]
  }

  /** A host name followed by a port gives back the host name, whatever the port. */
  lemma StripsPort(name: string, port: string)
    requires ':' !in name
    ensures GetWebsiteFromHost(name + ":" + port) == name
  {
    SplitAfterPart(name, port, ':');
  }

  /** A header without a port is returned unchanged, so the operation is idempotent. */
  lemma KeepsBareHost(httpHost: string)
    ensures ':' !in httpHost ==> GetWebsiteFromHost(httpHost) == httpHost
    ensures GetWebsiteFromHost(GetWebsiteFromHost(httpHost)) == GetWebsiteFromHost(httpHost)
  {
    if ':' !in httpHost {
      SplitNoSep(httpHost, ':');
    }
    SplitNoSep(GetWebsiteFromHost(httpHost), ':');
  }
}
