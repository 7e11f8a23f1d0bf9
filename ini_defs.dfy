/*
 * Application-wide definitions of the INI engine: the value-length limit, the
 * status codes, and the one buffer structure every operation works on
 * (src/WY_IniDefs.h).
 */
module IniDefs {

  /** WYINI_MAX_VAL_LEN: a value must be strictly shorter than this to be read or written. */
  const MaxValLen: nat := 128

  /** The status codes of the C API. */
  datatype Status = Ok | MemoryErr | IoErr | NotFound | ValNotFound {
    /** The integer the C API returns for this status. */
    function Code(): int {
      match this
      case Ok => 0
      case MemoryErr => -1
      case IoErr => -2
      case NotFound => -3
      case ValNotFound => -4
    }
  }

  datatype Option<T> = None | Some(value: T)

  /** A value of type T, or the status that explains why there is none. */
  datatype Outcome<T> = Success(value: T) | Failure(error: Status)

  /**
   * struct S_wyini_buffer: the content buffer (capacity maxFileSize), its logical
   * length, and the scratch area a lookup copies its value into. A null array
   * stands for a NULL pointer.
   */
  class IniBuffer {
    var maxFileSize: nat          // m_max_file_size
    var bufferLen: nat            // m_buffer_len
    var buffer: array?<char>      // m_buffer
    var valBuffer: array?<char>   // m_val_buffer

    /** The process-wide static starts zeroed, which is the clean state. */
    constructor ()
      ensures IsClean()
    {
      maxFileSize, bufferLen := 0, 0;
      buffer, valBuffer := null, null;
    }

    /** The state wyini_init and wyini_clean leave behind. */
    predicate IsClean()
      reads this
    {
      maxFileSize == 0 && bufferLen == 0 && buffer == null && valBuffer == null
    }

    /**
     * Either nothing is loaded (the clean state), or both buffers exist, are distinct,
     * the content buffer has the capacity m_max_file_size and the content stays at most
     * m_max_file_size - 1 bytes long, leaving room for the byte after the content.
     */
    ghost predicate Valid()
      reads this
    {
      if buffer == null then IsClean()
      else
        valBuffer != null && valBuffer != buffer && valBuffer.Length == MaxValLen &&
        buffer.Length == maxFileSize && bufferLen < maxFileSize
    }

    /** The logical content: the first m_buffer_len bytes of the buffer. */
    function Content(): (s: seq<char>)
      requires Valid()
      reads this, buffer
      ensures |s| == bufferLen
    {
      if buffer == null then [] else buffer[..bufferLen]
    }
  }
}
