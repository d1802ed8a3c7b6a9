/** The broken-link test applied to the status line of an HTML response. */
module Status {
  import opened Strings

  /** A status is reported as broken when it starts with "40" or "50". */
  function IsBroken(status: string): (b: bool)
    ensures b <==> |status| >= 2 && status[1] == '0' && (status[0] == '4' || status[0] == '5')
  {
    HasPrefix(status, "40") || HasPrefix(status, "50")
  }

  function Digit(d: int): char
    requires 0 <= d <= 9
  {
    ('0' as int + d) as char
  }

  /** The status line of a response as Go's HTTP client reports it: the
      three-digit code, a space and the reason phrase. */
  function StatusLine(code: int, reason: string): string
    requires 100 <= code <= 999
  {
    [Digit(code / 100), Digit(code / 10 % 10), Digit(code % 10)] + " " + reason
  }

  /** Only codes 400-409 and 500-509 are reported: 410-499 and 510-599 pass
      the test unnoticed. */
  lemma BrokenCodes(code: int, reason: string)
    requires 100 <= code <= 999
    ensures IsBroken(StatusLine(code, reason)) <==> 400 <= code <= 409 || 500 <= code <= 509
  {
  }
}
