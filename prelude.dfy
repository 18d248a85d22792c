/** Small shared vocabulary: an optional value, used for Java's null references and for
    operations that throw on bad input. */
module Prelude {

  datatype Option<+T> = None | Some(value: T)
}
