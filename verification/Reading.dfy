/** What a reader at an offset returns: the value and where it ends, or a refusal. */
module Reading {
  datatype At<+T> = At(value: T, next: nat) | Bad
}
