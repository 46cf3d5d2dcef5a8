/** What the client and the worker send each other. */
module WorkerMessages {
  import opened Basics

  datatype Decryption = Decryption(key: Bytes, context: Bytes, payload: Bytes)

  datatype Request =
    | Encrypt(key: Bytes, context: Bytes, plaintext: Bytes)
    | Decrypt(decryption: Decryption)
    | HpkeEncap(recipientPublicKey: Bytes, info: Bytes, aad: Bytes, plaintext: Bytes)
    | HpkeDecap(recipientPrivateKey: Bytes, info: Bytes, aad: Bytes, enc: Bytes, ciphertext: Bytes)

  /** A request as it is posted, under its id. */
  datatype Sent = Sent(id: nat, request: Request)

  datatype Body = Success(result: Bytes) | Failure(message: string)

  datatype Message = Ready | InitError(message: string) | Response(id: nat, body: Body)
}
