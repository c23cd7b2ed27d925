/** The client's top-level state (texas-holdem-client/src/main.rs).
    The lobby systems run only while the client is in `Lobby`; a matched
    create or enter response requests the move to `Gaming`. */
module App {
  datatype AppState = Lobby | Gaming
}
