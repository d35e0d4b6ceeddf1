/** A text file opened for writing, seen as the characters written to it so far. */
module Sinks {

  class TextSink {
    var text: string

    /** A freshly opened (or truncated) file: nothing written yet. */
    constructor ()
      ensures text == []
    {
      text := [];
    }

    /** `f.write(s)`: appends `s`, leaving what was written before untouched. */
    method Write(s: string)
      modifies this
      ensures text == old(text) + s
    {
      text := text + s;
    }
  }

  /** The `print(s, file=f)` builtin with its default `end="\n"`: writes `s`
      and then a newline. */
  method Print(s: string, file: TextSink)
    modifies file
    ensures file.text == old(file.text) + s + "\n"
  {
    file.Write(s);
    file.Write("\n");
  }
}
