/** The server descriptor shared by the provider and the controller. */
module Provider {
  import opened GoStrings

  /** One upstream proxy server. Field for field the `Server` struct, which is
      also the JSON configuration handed to the proxy process; `pingSpeed` is
      the probe latency in milliseconds, zero until a probe sets it. */
  datatype Server = Server(
    server: Bytes,
    localAddress: Bytes,
    localPort: int,
    timeout: int,
    workers: int,
    serverPort: int,
    password: Bytes,
    cipher: Bytes,
    plugin: Bytes,
    pingSpeed: real)
}
