/** Request methods (http_message.h, http_message.cc) and byte-wise case folding. */
module HttpMethod {

  datatype Method = GET | POST | PUT | DELETE | PATCH | UNKNOWN

  // std::tolower in the "C" locale, the only one the server ever installs.
  function ToLower(c: char): char {
    if 'A' <= c <= 'Z' then c + 32 as char else c
  }

  function Lower(s: string): string {
    seq(|s|, i requires 0 <= i < |s| => ToLower(s[i]))
  }

  function ToMethod(s: string): Method {
    if |s| > 6 then UNKNOWN else
      var lower := Lower(s);
      if lower == "get" then GET
      else if lower == "post" then POST
      else if lower == "put" then PUT
      else if lower == "delete" then DELETE
      else if lower == "patch" then PATCH
      else UNKNOWN
  }

  function MethodName(m: Method): string {
    match m
    case GET => "GET"
    case POST => "POST"
    case PUT => "PUT"
    case DELETE => "DELETE"
    case PATCH => "PATCH"
    case UNKNOWN => "UNKNOWN"
  }

  /** Folding changes exactly the 26 capital letters. */
  lemma LowerLetters(c: char, i: nat)
    ensures i < 26 ==> ToLower("ABCDEFGHIJKLMNOPQRSTUVWXYZ"[i]) == "abcdefghijklmnopqrstuvwxyz"[i]
    ensures c !in "ABCDEFGHIJKLMNOPQRSTUVWXYZ" ==> ToLower(c) == c
  {
    var upper, lower := "ABCDEFGHIJKLMNOPQRSTUVWXYZ", "abcdefghijklmnopqrstuvwxyz";
    assert forall k :: 0 <= k < 26 ==> upper[k] as int == 65 + k && lower[k] as int == 97 + k;
    if 'A' <= c <= 'Z' {
      assert upper[c as int - 65] == c;
    }
  }

  /** A method is recognised exactly when the text spells its name, in any case. */
  lemma RecognisedIff(s: string)
    ensures ToMethod(s) == GET <==> Lower(s) == "get"
    ensures ToMethod(s) == POST <==> Lower(s) == "post"
    ensures ToMethod(s) == PUT <==> Lower(s) == "put"
    ensures ToMethod(s) == DELETE <==> Lower(s) == "delete"
    ensures ToMethod(s) == PATCH <==> Lower(s) == "patch"
  {
    assert |Lower(s)| == |s|;
    assert |"get"| == |"put"| == 3 && |"post"| == 4 && |"delete"| == 6 && |"patch"| == 5;
    assert "get"[0] != "put"[0];
  }

  lemma NamesLowered()
    ensures Lower("GET") == "get" && Lower("POST") == "post" && Lower("PUT") == "put"
    ensures Lower("DELETE") == "delete" && Lower("PATCH") == "patch"
  {
  }

  /** So every spelling of a name stands for that method and no other; parsing undoes printing. */
  lemma MethodRoundTrip(s: string, m: Method)
    ensures m != UNKNOWN ==> (ToMethod(s) == m <==> Lower(s) == Lower(MethodName(m)))
    ensures ToMethod(MethodName(m)) == m
  {
    NamesLowered();
    RecognisedIff(s);
    RecognisedIff(MethodName(m));
  }
}
