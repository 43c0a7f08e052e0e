/** The two record shapes that flow through the script. */
module Records {

  /**
   One application as the inventory reports it, every absent field already
   defaulted to "Unknown". The `last_modified` field is left out: it never
   reaches the output.
   */
  datatype AppRecord = AppRecord(name: string, path: string, version: string, source: string)

  /** One line-to-be of the report: the name, the raw version and the formatted source. */
  datatype Entry = Entry(name: string, version: string, source: string)

  /** The default every absent inventory field takes. */
  const Unknown: string := "Unknown"
}
