/**
 Prescribed ids. Sixteen bytes, of which only two things matter here: their byte order, and
 the kind nibble (the low half of byte 6). An id is therefore split around that nibble into
 the bits before it, the nibble itself and the bits after it, each read big-endian, so that
 comparing the parts in turn is comparing the bytes.
 */
module Identity {
  const KIND_ASTRO := 0x0
  const KIND_SOLOC := 0x1
  const KIND_ABSTRACT := 0x2

  datatype Id = Id(head: nat, kind: nat, tail: nat) {
    predicate IsAstro() {
      kind == KIND_ASTRO
    }

    predicate IsSoloc() {
      kind == KIND_SOLOC
    }

    predicate IsAbstract() {
      kind == KIND_ABSTRACT
    }
  }

  /** Byte order, strictly. */
  predicate Before(a: Id, b: Id) {
    || a.head < b.head
    || (a.head == b.head && a.kind < b.kind)
    || (a.head == b.head && a.kind == b.kind && a.tail < b.tail)
  }
}
