/** The trees of struct argp that programs describe their command lines with. */
module ArgpTree {
  import opened Options

  /** struct argp_option; the entry that ends a vector is not part of it. */
  datatype ArgpOption = ArgpOption(name: Option<string>, key: int, hasArg: bool, optionalArg: bool, alias: bool, doc: bool,
                                   hidden: bool) {
    /** __option_is_short in the C locale. */
    predicate IsShort() { !doc && 32 <= key <= 126 }
  }

  /** struct argp; `id` stands for its address. */
  datatype Argp = Argp(id: nat, options: Option<seq<ArgpOption>>, hasParser: bool, argsDoc: Option<string>, children: Children)

  /** A vector of struct argp_child, walked from its first element to its end. */
  datatype Children = End | Child(argp: Argp, rest: Children)

  function OwnOptions(argp: Argp): seq<ArgpOption> { if argp.options.Some? then argp.options.value else [] }

  lemma Regroup<T>(a: seq<T>, b: seq<T>, c: seq<T>)
    ensures a + b + c == a + (b + c)
  {
  }
}
