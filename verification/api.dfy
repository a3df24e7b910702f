/** What every handler shares: the server configuration (apiConfig), the
    failures of external collaborators during one request, and the pair of
    answer and resulting database a handler produces. */
module Api {
  import opened Http
  import opened Auth
  import opened Store

  /** apiConfig's secrets, with the token library they are used with. */
  datatype Config = Config(jwtSecret: string, polkaKey: string, jose: Jose)

  /** Which external calls fail during one request: a query that reads, a
      query that writes, the random source, bcrypt and the token signer.
      A failing query reports an error other than "no rows". */
  datatype Faults = Faults(read: bool, write: bool, entropy: bool, hasher: bool, signer: bool)

  const NoFaults: Faults := Faults(false, false, false, false, false)

  /** A handler's answer and the database it leaves behind. */
  datatype Outcome<+T> = Outcome(response: Response<T>, db: Db)
}
