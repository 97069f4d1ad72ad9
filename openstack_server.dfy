/** The class-based OpenStack server carries its own copy of the extractor as
    the private method `OpenStackMCP._extract_error_patterns`. Everything else
    in that class (cloud session, listing tools, LLM-sampling tools) is not
    part of this model. */
module OpenStackServer {
  import opened PyStr
  import opened Errors

  /** `OpenStackMCP._extract_error_patterns`: the same code, line for line, as
      `extract_error_patterns`, so it returns the same dictionary for every
      input. The unused `self` receiver is not modelled. */
  method ExtractErrorPatterns(logContent: string) returns (r: ScanResult)
    ensures r == ErrorPatterns(logContent)
    ensures r.Empty? <==> logContent == ""
    ensures r.Full? ==> r.totalLines == |Split(logContent)|
    ensures r.Full? ==> (r.hasErrors <==> r.errorCount > 0)
    ensures r.Full? ==> |r.errorLines| <= MaxErrorLines && |r.errorLines| <= r.errorCount
  {
    r := Errors.ExtractErrorPatterns(logContent);
  }
}
