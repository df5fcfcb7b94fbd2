/** The part of `check_url_status` that needs no network: a URL without an
    `http://` or `https://` scheme is reported as not applicable. The HEAD
    request itself is I/O; its outcome is passed in. */
module UrlCheck {

  /** What the HEAD request did: answered with a status code, or raised. */
  datatype Probe = Responded(status: int) | Failed

  /** "N/A", the numeric status, or "ERR" (app.py:123-130). */
  datatype UrlStatus = NotApplicable | Status(code: int) | Error

  predicate HasPrefix(s: string, prefix: string) {
    |prefix| <= |s| && s[..|prefix|] == prefix
  }

  function CheckUrlStatus(url: string, probe: Probe): (r: UrlStatus)
    ensures r.NotApplicable? <==> !(HasPrefix(url, "http://") || HasPrefix(url, "https://"))
    ensures url == "" ==> r.NotApplicable?
    ensures r.Status? <==> !r.NotApplicable? && probe.Responded?
    ensures r.Status? ==> r.code == probe.status
  {
    if url == "" || !(HasPrefix(url, "http://") || HasPrefix(url, "https://")) then NotApplicable
    else match probe
      case Responded(code) => Status(code)
      case Failed => Error
  }
}
