/** Numbers are doubles in the source: integers beyond this bound are not exact. */
module SafeIntegers {
  const MAX_SAFE_INTEGER := 9_007_199_254_740_991
}
