/**
 * The per-method constant pool, seen only through the queries the comparator
 * makes of it. Each query answers for any index without resolving a class,
 * as the runtime's `*_noresolve` and `*_ref_at` accessors do; how the runtime
 * stores the pool is not part of this model.
 */
module ConstantPools {

  /** An interned symbol (class, member or descriptor name): equal symbols are equal strings. */
  type Symbol = string

  /** The bit pattern of a Java `float` and of a Java `double`. */
  type Bits32 = x: int | 0 <= x < 0x1_0000_0000
  type Bits64 = x: int | 0 <= x < 0x1_0000_0000_0000_0000

  // Tag values of section 4.4 of the Java Virtual Machine Specification, and
  // the runtime's own tags for the unresolved flavours of a class or a string.
  const JVM_CONSTANT_INTEGER := 3
  const JVM_CONSTANT_FLOAT := 4
  const JVM_CONSTANT_LONG := 5
  const JVM_CONSTANT_DOUBLE := 6
  const JVM_CONSTANT_CLASS := 7
  const JVM_CONSTANT_STRING := 8
  const JVM_CONSTANT_UNRESOLVED_CLASS := 100
  const JVM_CONSTANT_UNRESOLVED_STRING := 102
  const JVM_CONSTANT_UNRESOLVED_CLASS_IN_ERROR := 104

  /** is_string() || is_unresolved_string() */
  predicate IsStringTag(tag: int) {
    tag == JVM_CONSTANT_STRING || tag == JVM_CONSTANT_UNRESOLVED_STRING
  }

  /** is_klass() || is_unresolved_klass() */
  predicate IsKlassTag(tag: int) {
    tag == JVM_CONSTANT_CLASS || tag == JVM_CONSTANT_UNRESOLVED_CLASS
    || tag == JVM_CONSTANT_UNRESOLVED_CLASS_IN_ERROR
  }

  /**
   * The queries answered about one method's constant pool: the tag at an index,
   * the class named by a class entry, the class, name and descriptor of a field
   * or method reference, and the values of literal entries.
   */
  datatype ConstantPool = ConstantPool(
    tagAt: int -> int,
    klassAt: int -> Symbol,
    klassRefAt: int -> Symbol,
    nameRefAt: int -> Symbol,
    signatureRefAt: int -> Symbol,
    intAt: int -> int,
    floatAt: int -> Bits32,
    longAt: int -> int,
    doubleAt: int -> Bits64,
    stringAt: int -> string)

  // IEEE 754 equality (the C `==` on float and double), on bit patterns:
  // a NaN equals nothing, the two zeros are equal, all else compares bits.

  predicate IsNaN32(x: Bits32) {
    (x / 0x80_0000) % 0x100 == 0xFF && x % 0x80_0000 != 0
  }

  predicate IsZero32(x: Bits32) {
    x % 0x8000_0000 == 0
  }

  predicate FloatEqual(a: Bits32, b: Bits32) {
    !IsNaN32(a) && !IsNaN32(b) && (a == b || (IsZero32(a) && IsZero32(b)))
  }

  predicate IsNaN64(x: Bits64) {
    (x / 0x10_0000_0000_0000) % 0x800 == 0x7FF && x % 0x10_0000_0000_0000 != 0
  }

  predicate IsZero64(x: Bits64) {
    x % 0x8000_0000_0000_0000 == 0
  }

  predicate DoubleEqual(a: Bits64, b: Bits64) {
    !IsNaN64(a) && !IsNaN64(b) && (a == b || (IsZero64(a) && IsZero64(b)))
  }
}
