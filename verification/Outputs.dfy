/** The strings that renderings and generated code are appended to. */
module Outputs {
  import opened Texts

  /** Appending can fail for want of memory where the allocator may refuse; `exhausted`
      remembers that. */
  class Output {
    var text: Text
    var exhausted: bool
    const mayRefuse: bool

    constructor (mayRefuse: bool)
      ensures text == "" && !exhausted && this.mayRefuse == mayRefuse
    {
      text, exhausted := "", false;
      this.mayRefuse := mayRefuse;
    }

    method Append(s: Text) returns (ok: bool)
      modifies this
      ensures ok ==> text == old(text) + s && exhausted == old(exhausted)
      ensures !ok ==> text == old(text) && exhausted && mayRefuse
    {
      var granted: bool := *;
      if mayRefuse && !granted {
        exhausted := true;
        return false;
      }
      text := text + s;
      ok := true;
    }
  }
}
