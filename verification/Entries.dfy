/** One form entry of cgic.c. An uploaded file is kept in a temporary file, of which the model
    keeps the contents; its `value` is then empty. */
module Entries {
  import opened CStrings

  datatype FormEntry = FormEntry(
    attr: string, value: string, valueLength: int, fileName: string, contentType: string, file: Option<string>)

  lemma {:induction false} ConsIff(e: FormEntry, d: FormEntry, es: seq<FormEntry>, ds: seq<FormEntry>)
    ensures [e] + es == [d] + ds <==> e == d && es == ds
  {
    if [e] + es == [d] + ds {
      assert ([e] + es)[1..] == es && ([d] + ds)[1..] == ds && ([e] + es)[0] == e && ([d] + ds)[0] == d;
    }
  }
}
