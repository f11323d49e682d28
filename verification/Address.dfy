/** Agent addresses of the form tcp://ip:port, src/common/io.cc. */
module Address {
  import opened Decimal

  /** The index after the last c in s, or 0 when there is none. */
  function AfterLast(s: string, c: char): (i: nat)
    ensures i <= |s| && (forall j :: i <= j < |s| ==> s[j] != c) && (i > 0 ==> s[i - 1] == c)
  {
    if s == "" then 0 else if s[|s| - 1] == c then |s| else AfterLast(s[..|s| - 1], c)
  }

  /** The part between the last slash and the last colon; to the end when no colon follows the slash. */
  function AddrIP(addr: string): string {
    var start, end := AfterLast(addr, '/'), AfterLast(addr, ':');
    if end == 0 || end - 1 < start then addr[start..] else addr[start..end - 1]
  }

  function GenAddr(ip: string, port: nat): string {
    "tcp://" + ip + ":" + Print(port)
  }

  lemma LastIsUnique(s: string, c: char, i: nat)
    requires 0 < i <= |s| && s[i - 1] == c && forall j :: i <= j < |s| ==> s[j] != c
    ensures AfterLast(s, c) == i
  {
  }

  /** The IP is found back from the address it was put into exactly when it contains no slash. */
  lemma AddrIPOfGenAddr(ip: string, port: nat)
    ensures AddrIP(GenAddr(ip, port)) == ip <==> '/' !in ip
  {
    var addr := GenAddr(ip, port);
    assert addr[6..6 + |ip|] == ip;
    LastIsUnique(addr, ':', 7 + |ip|);
    if '/' !in ip {
      LastIsUnique(addr, '/', 6);
    } else {
      var i :| 0 <= i < |ip| && ip[i] == '/';
      assert addr[6 + i] == '/';
    }
  }
}
