/** One walker of a replica-exchange ensemble: a fixed identity and the
    temperature it currently runs at. */
module RemdWalker {

  class Walker {
    /** The walker's identity; read-only, so no write to `temp` can change it. */
    const index: int
    /** The temperature of the slot the walker occupies; a plain writable field. */
    var temp: real

    constructor (index: int, temp: real)
      ensures this.index == index && this.temp == temp
    {
      this.index := index;
      this.temp := temp;
    }
  }
}
