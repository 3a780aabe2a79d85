/**
 * The record the backend stores and serves (backend/models/url.go). The struct
 * in url.go has no `AccessibleLinks` field, but storage/memory.go and
 * crawler/crawler.go read and write one; the model adds it, as those files need.
 */
module Models {

  datatype BrokenLink = BrokenLink(url: string, status: int)

  datatype UrlInfo = UrlInfo(
    id: string,
    url: string,
    status: string,
    title: string,
    htmlVersion: string,
    headings: map<string, int>,
    internalLinks: int,
    externalLinks: int,
    accessibleLinks: int,
    brokenLinks: seq<BrokenLink>,
    hasLoginForm: bool)

  const Queued := "queued"
  const Running := "running"
  const Done := "done"
  const Failed := "error"
  const Stopped := "stopped"

  /** The zero value of the Go struct: every field empty. */
  function Blank(): UrlInfo {
    UrlInfo("", "", "", "", "", map[], 0, 0, 0, [], false)
  }

  /** A record that carries only an id, a url and a status: all analysis fields are cleared. */
  function Placeholder(id: string, url: string, status: string): (r: UrlInfo)
    ensures r.id == id && r.url == url && r.status == status
    ensures r == Blank().(id := id, url := url, status := status)
  {
    UrlInfo(id, url, status, "", "", map[], 0, 0, 0, [], false)
  }
}
