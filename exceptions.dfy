/** The Python exceptions the core can raise; none of them is caught, so each one
    ends the call that raised it. */
module Exceptions {

  datatype Exception =
    | ConnectionError         // `requests.get` could not complete the request
    | HttpError(status: int)  // `raise_for_status` on a 4xx or 5xx reply
    | DecodeError             // the body is not JSON (`response.json()`) or not XML (`ET.fromstring`)
    | AttributeError          // a method called on a value that lacks it (`.get` on a non-dict, `.lower()` on None)
    | TypeError               // `", ".join` over a list holding None
}
