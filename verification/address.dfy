/** The (host, port) pair every acceptor records and every connector targets. */
module Addresses {
  import opened Bytes

  /** Python's tuple[str, int]. Domain names and HTTP hosts are their ASCII
      bytes; an IPv4 or IPv6 host is its raw 4 or 16 bytes, standing in for
      the text that socket.inet_ntop would produce. The port is whatever
      integer the source stored, so it may exceed 65535 for a parsed HTTP
      Host header. */
  datatype Address = Address(host: seq<byte>, port: nat)
}
