/** The media record exchanged between the catalog server and the client:
    the JSON object `{name, url, type}` that the server builds and the Swift
    `MediaFile` struct decodes. The Swift struct also carries a fresh `UUID`
    identity that is not one of its coded fields; it has no behaviour and is
    not modelled. The field `type` is called `fileType` here because `type`
    is a Dafny keyword. */
module Media {

  datatype MediaFile = MediaFile(name: string, url: string, fileType: string)

}
