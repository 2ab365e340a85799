/** Connections and errors shared by dialing and closing. */
module Conns {

  /** An error the model does not look into, or one of the errors dialAll builds itself. */
  datatype Error =
    | Cause(id: nat)
    | NotPrepared(spec: string)
    | AllFailed(causes: seq<(string, Error)>)

  /** A connection, named by the dial that opened it: target dial number i, or jump dial number i. */
  datatype Conn = HostConn(i: nat) | JumpConn(i: nat)
}
