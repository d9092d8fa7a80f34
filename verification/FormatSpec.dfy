/** The mutable state of the formatter: the format specification and the argument cursor. */
module FormatSpecs {
  import opened Options
  import opened Directives

  /** The value of a FormatSpec, without its running total. */
  datatype Spec = Spec(
    flags: set<Flag>, length: Length, width: int, precision: int, negative: bool, radix: int)

  const RESET := Spec({}, NoLength, -1, -1, false, 10)

  class FormatSpec {
    var flags: set<Flag>
    var length: Length
    var total: int
    var width: int
    var precision: int
    var negative: bool
    var radix: int

    ghost function View(): Spec
      reads this
    {
      Spec(flags, length, width, precision, negative, radix)
    }

    constructor ()
      ensures View() == RESET && total == 0
    {
      flags, length, total, width, precision, negative, radix := {}, NoLength, 0, -1, -1, false, 10;
    }

    method Reset()
      modifies this
      ensures View() == RESET && total == old(total)
    {
      flags, length, width, precision, negative, radix := {}, NoLength, -1, -1, false, 10;
    }
  }

  /** A va_list over a typed argument list. */
  class VaList {
    const args: seq<Arg>
    var next: nat

    constructor (args: seq<Arg>)
      ensures this.args == args && next == 0
    {
      this.args := args;
      next := 0;
    }

    /** va_arg with an integer type, which the argument must have. */
    method NextInt(t: CType) returns (v: int)
      requires HasArg(args, next, t)
      modifies this
      ensures next == old(next) + 1 && v == IntAt(args, old(next)) && t.Has(v)
    {
      v := args[next].v;
      next := next + 1;
    }

    method NextText() returns (s: Option<string>)
      requires next < |args| && args[next].Text?
      modifies this
      ensures next == old(next) + 1 && Text(s) == args[old(next)]
    {
      s := args[next].s;
      next := next + 1;
    }
  }
}
