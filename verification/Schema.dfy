/** The rows the store keeps, as the Go structs hold them. */
module Schema {
  datatype MediaType = Image | Video | Audio

  datatype Option<+T> = None | Some(value: T)

  /** core.Blob: one distinct uploaded byte stream. An original that was never replaced has replacedAt None. */
  datatype Blob = Blob(
    hash: string, sizeBytes: int, mimeType: string, mediaType: MediaType, relPath: string, storedHash: string,
    replacedAt: Option<int>, width: int, height: int, durationMs: int, createdAt: int)

  /** core.Item: one placement of a blob. No owning device is the empty deviceID. */
  datatype Item = Item(
    itemID: string, hash: string, album: string, year: int, month: int, filename: string, relPath: string,
    capturedAtMs: int, capturedOffsetMin: int, deviceID: string, createdAt: int)
}
