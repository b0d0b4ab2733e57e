// The parts of a FileDescriptorProto that a descriptor database reads, and the
// index operations that adding a file performs, in the order it performs them.
module Descriptors {
  import opened Names
  import opened Options
  import opened Ordered

  datatype Field = Field(name: string, extendee: string, number: int)

  datatype Message = Message(name: string, nested: seq<Message>, extensions: seq<Field>)

  datatype File = File(name: string, package: Option<string>, messages: seq<Message>,
                       enums: seq<string>, extensions: seq<Field>, services: seq<string>)
  {
    /** file.package(): the default value is the empty string. */
    function Package(): string {
      if package.Some? then package.value else ""
    }

    /** The text put in front of each top-level name. */
    function Path(): string {
      if Package() == "" then "" else Package() + "."
    }
  }

  datatype Op = Symbol(name: string) | Extension(field: Field)

  /** Extensions found by AddNestedExtensions: those of nested types come first. */
  function NestedExtensions(m: Message): seq<Op> {
    AllNestedExtensions(m.nested) + ExtensionOps(m.extensions)
  }

  function AllNestedExtensions(ms: seq<Message>): seq<Op> {
    if ms == [] then [] else AllNestedExtensions(ms[..|ms| - 1]) + NestedExtensions(ms[|ms| - 1])
  }

  function ExtensionOps(fs: seq<Field>): seq<Op> {
    seq(|fs|, i requires 0 <= i < |fs| => Extension(fs[i]))
  }

  function SymbolOps(names: seq<string>): seq<Op> {
    seq(|names|, i requires 0 <= i < |names| => Symbol(names[i]))
  }

  function MessageOps(ms: seq<Message>): seq<Op> {
    if ms == [] then []
    else
      var last := ms[|ms| - 1];
      MessageOps(ms[..|ms| - 1]) + [Symbol(last.name)] + NestedExtensions(last)
  }

  function TopExtensionOps(fs: seq<Field>): seq<Op> {
    if fs == [] then []
    else
      var last := fs[|fs| - 1];
      TopExtensionOps(fs[..|fs| - 1]) + [Symbol(last.name)] + [Extension(last)]
  }

  function FileOps(f: File): seq<Op> {
    MessageOps(f.messages) + SymbolOps(f.enums) + TopExtensionOps(f.extensions) + SymbolOps(f.services)
  }

  /** Key of the extension table: fully-qualified extendee (leading dot removed) and field number. */
  datatype ExtKey = ExtKey(extendee: string, number: int)

  /** std::pair and std::tuple order. */
  predicate ExtLess(a: ExtKey, b: ExtKey) {
    Less(a.extendee, b.extendee) || (a.extendee == b.extendee && a.number < b.number)
  }

  lemma ExtLessIsStrictTotalOrder()
    ensures StrictTotalOrder(ExtLess)
  {
    forall a, b ensures a == b <==> !ExtLess(a, b) && !ExtLess(b, a) ensures !(ExtLess(a, b) && ExtLess(b, a)) {
      LessIsTotal(a.extendee, b.extendee);
    }
    forall a, b, c | ExtLess(a, b) && ExtLess(b, c) ensures ExtLess(a, c) {
      if Less(a.extendee, b.extendee) && Less(b.extendee, c.extendee) {
        LessIsTransitive(a.extendee, b.extendee, c.extendee);
      }
    }
  }

  predicate FullyQualified(field: Field) {
    field.extendee != "" && field.extendee[0] == '.'
  }

  function KeyOf(field: Field): ExtKey
    requires FullyQualified(field)
  {
    ExtKey(field.extendee[1..], field.number)
  }
}
