/** The proxy protocols of `src/proxy/models.rs` and how they are printed. */
module Protocols {
  import opened Wrappers
  import Text

  datatype Anonymity = Elite | Transparent | Anonymous | Unknown

  datatype Protocol =
    | Http(anonymity: Anonymity)
    | Https(anonymity: Anonymity)
    | Socks4
    | Socks5
    | Connect(port: u16)

  function LevelText(a: Anonymity): string {
    match a
    case Unknown => ""
    case Elite => ": Elite"
    case Transparent => ": Transparent"
    case Anonymous => ": Anonymous"
  }

  /** `Display for Protocol`. */
  function ProtocolText(p: Protocol): string {
    match p
    case Http(a) => "HTTP" + LevelText(a)
    case Https(a) => "HTTPS" + LevelText(a)
    case Socks4 => "SOCKS4"
    case Socks5 => "SOCKS5"
    case Connect(port) => "CONNECT:" + Text.NatText(port)
  }
}
