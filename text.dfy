/** String predicates shared by the model's modules. */
module Text {

  /** JavaScript's `endsWith` and Python's `endswith`. */
  predicate EndsWith(s: string, suffix: string) {
    |suffix| <= |s| && s[|s| - |suffix|..] == suffix
  }
}
