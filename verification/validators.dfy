/** What the sitemap validators share. */
module Validators {

  /**
   * The PHP value handed to isValid: a string, or a value of any other type
   * (which is_string rejects).
   */
  datatype Input = Str(s: string) | NonString
}
