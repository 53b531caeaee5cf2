/** Transport-level values shared by the tracker and the peers. Sockets are not
    modelled: a send is a `Datagram` value returned to the caller. */
module Net {

  /** A transport endpoint. The address is the textual host address
      (`InetAddress.getHostAddress`); two endpoints are equal exactly when
      address and port both are. */
  datatype Endpoint = Endpoint(address: string, port: int)

  /** One outbound datagram: its destination and its text payload. */
  datatype Datagram = Datagram(to: Endpoint, payload: string)

  /** One inbound datagram: the sender's endpoint and its text payload. */
  datatype Inbound = Inbound(from: Endpoint, payload: string)
}
